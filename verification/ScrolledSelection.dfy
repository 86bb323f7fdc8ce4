/** Selections on a screen that scrolls, with the anchors in the scrolled region, outside it or in the history.

    Lines outside the region stay where they are, lines that scroll out of it are gone, and blank lines come in.  A
    rotated selection has one piece, so it cannot leave out blank lines in its middle.  Lines that scroll up off line
    0 go to the history and push its lines up; scrolling down moves nothing of the history, though rotation moves the
    anchors that are in it. */
module ScrolledSelections {
  import opened Grid
  import opened Selections
  import opened Wrappers

  /** What callers scroll: lines of the screen. */
  predicate RegionOfScreen(d: Dimensions, top: int, bottom: int) {
    0 <= top < bottom <= d.Bottommost() + 1
  }

  /** The anchors are not below the screen; they may be anywhere above. */
  predicate NotBelow(v: View, d: Dimensions) {
    v.start.point.line <= d.Bottommost() && v.end.point.line <= d.Bottommost()
  }

  /** A region that starts at line 0 takes the history along when it scrolls up. */
  predicate TakesHistory(top: int, delta: int) {
    top == 0 && delta >= 0
  }

  /** The line's content moves. */
  predicate Scrolled(line: int, top: int, bottom: int, delta: int) {
    (TakesHistory(top, delta) || top <= line) && line < bottom
  }

  /** The same for a cell. */
  predicate Inside(x: int, columns: nat, top: int, bottom: int, delta: int) {
    (TakesHistory(top, delta) || top * columns <= x) && x < bottom * columns
  }

  /** What should be selected after the scroll: in the region, what was selected and stayed in it; elsewhere, what
      was selected. */
  ghost predicate Expected(v: View, columns: nat, top: int, bottom: int, delta: int, x: int) {
    if Inside(x, columns, top, bottom, delta)
    then Inside(x + delta * columns, columns, top, bottom, delta) && Covers(v, columns, x + delta * columns)
    else Covers(v, columns, x)
  }

  ghost predicate ScrollsAt(v: View, d: Dimensions, top: int, bottom: int, delta: int, x: int)
    requires d.Valid()
  {
    var r := Rotated(v, d, top, bottom, delta);
    (r.Some? && Covers(r.value, d.columns, x)) <==> Expected(v, d.columns, top, bottom, delta, x)
  }

  /** The anchor is right of the last column of a line, or left of its first. */
  predicate EndsLine(a: Anchor, d: Dimensions) { a.ColumnEdge() == d.columns }

  predicate StartsLine(a: Anchor) { a.ColumnEdge() == 0 }

  /** The selection has a cell in the history, which stays while the region scrolls down from line 0. */
  predicate LeavesHistory(v: View, columns: nat, top: int, delta: int) {
    top == 0 && delta < 0 && v.FirstEdge(columns) < 0 && v.FirstEdge(columns) < v.LastEdge(columns)
  }

  /** When rotation is right, for anchors anywhere.  With both in the region it is the condition for content, unless
      part of that is history that should stay.  With only the lower one in it, scrolling up has to leave that anchor
      in the region; with only the upper one, scrolling down has to.  Scrolling the other way, or with the region in
      the middle of the selection, brings blank lines into it. */
  predicate Scrolls(v: View, d: Dimensions, top: int, bottom: int, delta: int)
    requires d.Valid()
  {
    var s, e := v.Upper(), v.Lower();
    if LeavesHistory(v, d.columns, top, delta) then false
    else if Moves(s.point.line, top, bottom) && Moves(e.point.line, top, bottom) then
      FollowsContent(v, d, top, bottom, delta)
    else if delta == 0 then true
    else if Moves(e.point.line, top, bottom) then
      if delta < 0 then top == d.Bottommost() && StartsLine(e)
      else
        || e.point.line - delta >= top
        || (e.point.line - delta == top - 1 && EndsLine(e, d))
        || (s.point.line == top - 1 && EndsLine(s, d) && e.point.line - delta < s.point.line)
    else if Moves(s.point.line, top, bottom) then
      delta < 0 &&
      (|| s.point.line - delta < bottom
       || (StartsLine(s) && (s.point.line - delta == bottom || d.Bottommost() == bottom)))
    else s.point.line >= bottom || (top != 0 && e.point.line < top)
  }

  // ------------------------------------------------------------------------------------------
  // A region scrolled down from line 0
  // ------------------------------------------------------------------------------------------

  /** Rotation moves the anchor in the history, so the selection's first cell is dropped. */
  lemma HistoryIsLeft(v: View, d: Dimensions, bottom: int, delta: int)
    requires d.Valid() && v.ty.Simple? && v.ValidColumns(d) && RegionOfScreen(d, 0, bottom) && NotBelow(v, d)
    requires LeavesHistory(v, d.columns, 0, delta)
    ensures !ScrollsAt(v, d, 0, bottom, delta, v.FirstEdge(d.columns))
  {
    hide Pos;
    var c, x, r := d.columns, v.FirstEdge(d.columns), Rotated(v, d, 0, bottom, delta);
    var s, e := v.Upper(), v.Lower();
    OrderedEdges(v, c);
    EdgeByLine(s, 0, c);
    EdgeByLine(e, 0, c);
    assert s.point.line < 0;
    if r.Some? {
      var upper := s.AtLine(Min(s.point.line - delta, d.Bottommost()));
      var lower := RotateLower(upper, e, false, d, 0, bottom, delta).value;
      assert r.value == v.WithOrdered(upper, lower);
      OrderedCovers(v, upper, lower, c, x);
      EdgeByLine(upper, s.point.line + 1, c);
      EdgeByLine(lower, s.point.line + 1, c);
      EdgeByLine(lower, s.point.line + 2, c);
      Borders(s, d, s.point.line, s.point.line + 1);
      Borders(upper, d, s.point.line + 1, s.point.line + 2);
    }
  }

  /** Without a cell in the history it does not matter whether the history moves. */
  lemma HistoryDoesNotMatter(v: View, columns: nat, bottom: int, delta: int, x: int)
    requires columns >= 1 && bottom > 0 && delta < 0 && !LeavesHistory(v, columns, 0, delta)
    ensures Expected(v, columns, 0, bottom, delta, x)
       <==> if x < bottom * columns then Covers(v, columns, x + delta * columns) else Covers(v, columns, x)
  {
    Distance(delta, columns);
    Distance(bottom, columns);
  }

  // ------------------------------------------------------------------------------------------
  // Both anchors in the region
  // ------------------------------------------------------------------------------------------

  /** Then what is expected is what survives of the content. */
  lemma ExpectedIsContent(v: View, d: Dimensions, top: int, bottom: int, delta: int, x: int)
    requires d.Valid() && v.ty.Simple? && v.ValidColumns(d) && RegionOfScreen(d, top, bottom)
    requires Moves(v.start.point.line, top, bottom) && Moves(v.end.point.line, top, bottom)
    requires !LeavesHistory(v, d.columns, top, delta)
    ensures ScrollsAt(v, d, top, bottom, delta, x) <==> FollowsAt(v, d, top, bottom, delta, x)
  {
    hide Rotated, Pos;
    var c := d.columns;
    if top == 0 && delta < 0 {
      hide Expected;
      HistoryDoesNotMatter(v, c, bottom, delta, x);
    }
    EdgeByLine(v.start, top, c);
    EdgeByLine(v.start, bottom, c);
    EdgeByLine(v.end, top, c);
    EdgeByLine(v.end, bottom, c);
    LineGapAtMost(bottom, d.Bottommost() + 1, c);
  }

  // ------------------------------------------------------------------------------------------
  // Where the edges are
  // ------------------------------------------------------------------------------------------

  /** Edges against the region's borders. */
  lemma Borders(a: Anchor, d: Dimensions, top: int, bottom: int)
    requires d.Valid() && a.point.column < d.columns && top < bottom
    ensures var edge, t, b := a.Edge(d.columns), top * d.columns, bottom * d.columns;
            && (a.point.line < top ==> edge <= t) && (a.point.line >= top ==> edge >= t)
            && (a.point.line < bottom ==> edge <= b) && (a.point.line >= bottom ==> edge >= b)
            && (a.point.line == top - 1 ==> (edge == t <==> EndsLine(a, d)))
            && (a.point.line == bottom ==> (edge == b <==> StartsLine(a)))
            && (a.point.line < top - 1 ==> edge < t)
            && (a.point.line > bottom ==> edge > b)
            && (a.point.line == top ==> edge == t + a.ColumnEdge())
            && (a.point.line > top ==> edge > t)
            && t + d.columns <= b
  {
    hide Pos;
    EdgeByLine(a, top, d.columns);
    EdgeByLine(a, top - 1, d.columns);
    EdgeByLine(a, bottom, d.columns);
    EdgeByLine(a, bottom + 1, d.columns);
    EdgeByLine(a, top + 1, d.columns);
    Distribute(top, -1, d.columns);
    Distribute(top, 1, d.columns);
    Distribute(bottom, 1, d.columns);
    LineGapAtMost(top + 1, bottom, d.columns);
  }

  lemma Distance(delta: int, columns: nat)
    requires columns >= 1
    ensures delta > 0 ==> delta * columns >= columns
    ensures delta < 0 ==> delta * columns <= 0 - columns
    ensures delta == 0 ==> delta * columns == 0
  {
    if delta > 0 {
      LineGapAtMost(1, delta, columns);
    } else if delta < 0 {
      LineGapAtMost(delta, -1, columns);
    }
  }

  // ------------------------------------------------------------------------------------------
  // The lower anchor in the region, the upper one above it
  // ------------------------------------------------------------------------------------------

  lemma LowerMoves(v: View, d: Dimensions, top: int, bottom: int, delta: int, x: int)
    requires d.Valid() && v.ty.Simple? && v.ValidColumns(d) && RegionOfScreen(d, top, bottom) && NotBelow(v, d)
    requires !Moves(v.Upper().point.line, top, bottom) && Moves(v.Lower().point.line, top, bottom) && delta > 0
    ensures var s, e := v.Upper().Edge(d.columns), v.Lower().Edge(d.columns) - delta * d.columns;
            var r := Rotated(v, d, top, bottom, delta);
            && (r.None? <==> v.Lower().point.line - delta < v.Upper().point.line)
            && (r.Some? ==> (Covers(r.value, d.columns, x) <==> Min(s, e) <= x < Max(s, e)))
            && (Expected(v, d.columns, top, bottom, delta, x)
                <==> s <= x && (x < top * d.columns || x < e))
  {
    hide Pos, Covers;
    var c := d.columns;
    var s, e := v.Upper(), v.Lower();
    Borders(s, d, top, bottom);
    Borders(e, d, top, bottom);
    Distance(delta, c);
    EdgeAtLine(e, e.point.line - delta, delta, c);
    OrderedCovers(v, s, e, c, x);
    OrderedCovers(v, s, e, c, x + delta * c);
    if e.point.line - delta >= s.point.line {
      var lower := e.AtLine(e.point.line - delta);
      assert Rotated(v, d, top, bottom, delta) == Some(v.WithOrdered(s, lower));
      OrderedCovers(v, s, lower, c, x);
    }
  }

  /** Scrolling up pulls the lower anchor towards the upper one. */
  lemma LowerMovesUp(v: View, d: Dimensions, top: int, bottom: int, delta: int, x: int)
    requires d.Valid() && v.ty.Simple? && v.ValidColumns(d) && RegionOfScreen(d, top, bottom) && NotBelow(v, d)
    requires !Moves(v.Upper().point.line, top, bottom) && Moves(v.Lower().point.line, top, bottom) && delta > 0
    ensures Scrolls(v, d, top, bottom, delta) ==> ScrollsAt(v, d, top, bottom, delta, x)
    ensures !Scrolls(v, d, top, bottom, delta) ==> !ScrollsAt(v, d, top, bottom, delta, top * d.columns - 1)
  {
    var c := d.columns;
    var s, e := v.Upper(), v.Lower();
    LowerMoves(v, d, top, bottom, delta, x);
    LowerMoves(v, d, top, bottom, delta, top * c - 1);
    hide Pos, Covers, Rotated, Expected;
    Borders(s, d, top, bottom);
    EdgeAtLine(e, e.point.line - delta, delta, c);
    Borders(e.AtLine(e.point.line - delta), d, top, bottom);
  }

  /** Scrolling down brings a blank first line into the selection. */
  lemma LowerMovesDown(v: View, d: Dimensions, top: int, bottom: int, delta: int, x: int)
    requires d.Valid() && v.ty.Simple? && v.ValidColumns(d) && RegionOfScreen(d, top, bottom) && NotBelow(v, d)
    requires !Moves(v.Upper().point.line, top, bottom) && Moves(v.Lower().point.line, top, bottom) && delta < 0
    ensures Scrolls(v, d, top, bottom, delta) ==> ScrollsAt(v, d, top, bottom, delta, x)
    ensures !Scrolls(v, d, top, bottom, delta) ==> !ScrollsAt(v, d, top, bottom, delta, top * d.columns)
  {
    hide Pos, Covers;
    var c := d.columns;
    var s, e := v.Upper(), v.Lower();
    var line := Min(e.point.line - delta, d.Bottommost());
    var lower := if line >= bottom then Anchor(Point(bottom - 1, d.LastColumn()), Right) else e.AtLine(line);
    assert Rotated(v, d, top, bottom, delta) == Some(v.WithOrdered(s, lower));
    Borders(s, d, top, bottom);
    Borders(e, d, top, bottom);
    Borders(lower, d, top, bottom);
    Distance(delta, c);
    OrderedCovers(v, s, e, c, x);
    OrderedCovers(v, s, e, c, x + delta * c);
    OrderedCovers(v, s, lower, c, x);
    OrderedCovers(v, s, lower, c, top * c);
    Distribute(bottom, -1, c);
    EdgeByLine(lower, bottom - 1, c);
  }

  // ------------------------------------------------------------------------------------------
  // The upper anchor in the region, the lower one below it
  // ------------------------------------------------------------------------------------------

  /** Scrolling up brings a blank last line into the selection. */
  lemma UpperMovesUp(v: View, d: Dimensions, top: int, bottom: int, delta: int)
    requires d.Valid() && v.ty.Simple? && v.ValidColumns(d) && RegionOfScreen(d, top, bottom) && NotBelow(v, d)
    requires Moves(v.Upper().point.line, top, bottom) && !Moves(v.Lower().point.line, top, bottom) && delta > 0
    ensures !Scrolls(v, d, top, bottom, delta) && !ScrollsAt(v, d, top, bottom, delta, bottom * d.columns - 1)
  {
    hide Pos, Covers;
    var c := d.columns;
    var s, e := v.Upper(), v.Lower();
    var line := s.point.line - delta;
    var upper := if line < top && top != 0 then Anchor(Point(top, 0), Left) else s.AtLine(line);
    assert Rotated(v, d, top, bottom, delta) == Some(v.WithOrdered(upper, e));
    Borders(s, d, top, bottom);
    Borders(e, d, top, bottom);
    EdgeAtLine(s, line, delta, c);
    EdgeByLine(Anchor(Point(top, 0), Left), top, c);
    Distance(delta, c);
    LineGapAtMost(top + 1, bottom, c);
    Distribute(top, 1, c);
    OrderedCovers(v, upper, e, c, bottom * c - 1);
  }

  /** Scrolling down pushes the upper anchor towards the lower one. */
  lemma UpperMovesDown(v: View, d: Dimensions, top: int, bottom: int, delta: int, x: int)
    requires d.Valid() && v.ty.Simple? && v.ValidColumns(d) && RegionOfScreen(d, top, bottom) && NotBelow(v, d)
    requires Moves(v.Upper().point.line, top, bottom) && !Moves(v.Lower().point.line, top, bottom) && delta < 0
    requires !LeavesHistory(v, d.columns, top, delta)
    ensures Scrolls(v, d, top, bottom, delta) ==> ScrollsAt(v, d, top, bottom, delta, x)
    ensures !Scrolls(v, d, top, bottom, delta) ==> !ScrollsAt(v, d, top, bottom, delta, bottom * d.columns)
  {
    hide Pos, Covers;
    var c := d.columns;
    var s, e := v.Upper(), v.Lower();
    var line := Min(s.point.line - delta, d.Bottommost());
    var upper := s.AtLine(line);
    assert Rotated(v, d, top, bottom, delta) == Some(v.WithOrdered(upper, e));
    Borders(s, d, top, bottom);
    Borders(e, d, top, bottom);
    Borders(upper, d, top, bottom);
    Borders(s.AtLine(s.point.line - delta), d, top, bottom);
    EdgeAtLine(s, s.point.line - delta, delta, c);
    Distance(delta, c);
    OrderedCovers(v, s, e, c, x);
    OrderedCovers(v, s, e, c, x + delta * c);
    OrderedCovers(v, s, e, c, bottom * c);
    OrderedCovers(v, upper, e, c, x);
    OrderedCovers(v, upper, e, c, bottom * c);
  }

  // ------------------------------------------------------------------------------------------
  // No anchor in the region, or nothing scrolled
  // ------------------------------------------------------------------------------------------

  lemma NothingMoves(v: View, d: Dimensions, top: int, bottom: int, delta: int, x: int)
    requires d.Valid() && v.ty.Simple? && v.ValidColumns(d) && RegionOfScreen(d, top, bottom) && NotBelow(v, d)
    requires !Moves(v.start.point.line, top, bottom) && !Moves(v.end.point.line, top, bottom)
    ensures Scrolls(v, d, top, bottom, delta) ==> ScrollsAt(v, d, top, bottom, delta, x)
    ensures !Scrolls(v, d, top, bottom, delta) ==>
              !ScrollsAt(v, d, top, bottom, delta, if delta < 0 then top * d.columns else bottom * d.columns - 1)
  {
    hide Pos, Covers;
    var c := d.columns;
    var s, e := v.Upper(), v.Lower();
    assert Rotated(v, d, top, bottom, delta) == Some(v);
    Borders(s, d, top, bottom);
    Borders(e, d, top, bottom);
    Distance(delta, c);
    OrderedCovers(v, s, e, c, x);
    OrderedCovers(v, s, e, c, x + delta * c);
    OrderedCovers(v, s, e, c, top * c);
    OrderedCovers(v, s, e, c, bottom * c - 1);
  }

  lemma NothingScrolls(v: View, d: Dimensions, top: int, bottom: int, x: int)
    requires d.Valid() && v.ty.Simple? && v.ValidColumns(d) && RegionOfScreen(d, top, bottom) && NotBelow(v, d)
    requires !Moves(v.start.point.line, top, bottom) || !Moves(v.end.point.line, top, bottom)
    ensures Scrolls(v, d, top, bottom, 0) && ScrollsAt(v, d, top, bottom, 0, x)
  {
    hide Pos, Covers;
    assert v.Upper().AtLine(v.Upper().point.line) == v.Upper() && v.Lower().AtLine(v.Lower().point.line) == v.Lower();
    assert v.WithOrdered(v.Upper(), v.Lower()) == v;
    assert Rotated(v, d, top, bottom, 0) == Some(v);
    assert x + 0 * d.columns == x;
  }

  // ------------------------------------------------------------------------------------------
  // Anchors anywhere
  // ------------------------------------------------------------------------------------------

  /** Rotation is right at every cell if the condition holds. */
  lemma RotationIsSoundAnywhere(v: View, d: Dimensions, top: int, bottom: int, delta: int, x: int)
    requires d.Valid() && v.ty.Simple? && v.ValidColumns(d) && RegionOfScreen(d, top, bottom) && NotBelow(v, d)
    requires Scrolls(v, d, top, bottom, delta)
    ensures ScrollsAt(v, d, top, bottom, delta, x)
  {
    hide Rotated, Pos, ScrollsAt, FollowsContent;
    var upperIn, lowerIn := Moves(v.Upper().point.line, top, bottom), Moves(v.Lower().point.line, top, bottom);
    if upperIn && lowerIn {
      RotationIsSound(v, d, top, bottom, delta, x);
      ExpectedIsContent(v, d, top, bottom, delta, x);
    } else if delta == 0 {
      NothingScrolls(v, d, top, bottom, x);
    } else if lowerIn {
      if delta > 0 {
        LowerMovesUp(v, d, top, bottom, delta, x);
      } else {
        LowerMovesDown(v, d, top, bottom, delta, x);
      }
    } else if upperIn {
      UpperMovesDown(v, d, top, bottom, delta, x);
    } else {
      NothingMoves(v, d, top, bottom, delta, x);
    }
  }

  lemma RowsInGrid(d: Dimensions, top: int, bottom: int)
    requires d.Valid() && RegionOfScreen(d, top, bottom)
    ensures d.First() <= top * d.columns < bottom * d.columns <= d.Beyond() && d.First() <= 0 < d.Beyond()
    ensures top * d.columns - 1 >= d.First() <== top > d.Topmost()
    ensures bottom * d.columns < d.Beyond() <== bottom <= d.Bottommost()
  {
    LineGapAtMost(d.Topmost(), top, d.columns);
    LineGapAtMost(d.Topmost(), 0, d.columns);
    LineGap(top, bottom, d.columns);
    LineGapAtMost(bottom, d.Bottommost() + 1, d.columns);
    LineGap(0, d.Bottommost() + 1, d.columns);
    if top > d.Topmost() {
      LineGap(d.Topmost(), top, d.columns);
    }
    if bottom <= d.Bottommost() {
      LineGap(bottom, d.Bottommost() + 1, d.columns);
    }
  }

  /** And at some cell it is wrong if the condition fails; for anchors in the grid, at a cell of the grid. */
  lemma RotationIsWrongSomewhere(v: View, d: Dimensions, top: int, bottom: int, delta: int) returns (x: int)
    requires d.Valid() && v.ty.Simple? && v.ValidColumns(d) && RegionOfScreen(d, top, bottom) && NotBelow(v, d)
    requires !Scrolls(v, d, top, bottom, delta)
    ensures !ScrollsAt(v, d, top, bottom, delta, x)
    ensures v.InGrid(d) ==> d.First() <= x < d.Beyond()
  {
    hide Rotated, Pos, ScrollsAt, FollowsContent;
    var upperIn, lowerIn := Moves(v.Upper().point.line, top, bottom), Moves(v.Lower().point.line, top, bottom);
    RowsInGrid(d, top, bottom);
    if LeavesHistory(v, d.columns, top, delta) {
      x := v.FirstEdge(d.columns);
      RowsByPos(d, v.start.point);
      RowsByPos(d, v.end.point);
      HistoryIsLeft(v, d, bottom, delta);
    } else if upperIn && lowerIn {
      x := RotationIsWrong(v, d, top, bottom, delta);
      ExpectedIsContent(v, d, top, bottom, delta, x);
    } else if lowerIn {
      if delta > 0 {
        x := top * d.columns - 1;
        LowerMovesUp(v, d, top, bottom, delta, x);
      } else {
        x := top * d.columns;
        LowerMovesDown(v, d, top, bottom, delta, x);
      }
    } else if upperIn {
      if delta > 0 {
        x := bottom * d.columns - 1;
        UpperMovesUp(v, d, top, bottom, delta);
      } else {
        x := bottom * d.columns;
        UpperMovesDown(v, d, top, bottom, delta, x);
      }
    } else {
      x := if delta < 0 then top * d.columns else bottom * d.columns - 1;
      NothingMoves(v, d, top, bottom, delta, x);
    }
  }

  // ------------------------------------------------------------------------------------------
  // On the screen
  // ------------------------------------------------------------------------------------------

  /** The grid before and after: scrolling may add lines to the history. */
  predicate SameScreen(d: Dimensions, d': Dimensions) {
    d.columns == d'.columns && d.screenLines == d'.screenLines
  }

  lemma RotatedColumns(v: View, d: Dimensions, top: int, bottom: int, delta: int)
    requires d.Valid() && v.ty.Simple? && v.ValidColumns(d)
    ensures var r := Rotated(v, d, top, bottom, delta); r.Some? ==> r.value.ty.Simple? && r.value.ValidColumns(d)
  {
  }

  /** What is displayed after a right rotation is what should be selected, at every cell of the grid, exactly if the
      rotated anchors can be drawn. */
  lemma DisplayIsExpected(v: View, d: Dimensions, d': Dimensions, top: int, bottom: int, delta: int)
    requires d.Valid() && v.ty.Simple? && v.ValidColumns(d) && RegionOfScreen(d, top, bottom) && NotBelow(v, d)
    requires Scrolls(v, d, top, bottom, delta) && d'.Valid() && SameScreen(d, d')
    ensures var r := Rotated(v, d, top, bottom, delta);
            && (r.Some? ==> r.value.ty.Simple?)
            && ((forall p :: d'.InGrid(p) ==> ((r.Some? && Shows(r.value, d', p))
                                               <==> Expected(v, d.columns, top, bottom, delta, Pos(p, d.columns))))
                <==> (r.None? || DrawnExactly(r.value, d')))
  {
    hide Rotated, Pos, Shows, DrawnExactly, Covers, Expected, Scrolls;
    var c, r := d.columns, Rotated(v, d, top, bottom, delta);
    RotatedColumns(v, d, top, bottom, delta);
    forall p | d'.InGrid(p)
      ensures ScrollsAt(v, d, top, bottom, delta, Pos(p, c))
      ensures r.Some? && DrawnExactly(r.value, d') ==> (Shows(r.value, d', p) <==> Covers(r.value, c, Pos(p, c)))
    {
      RotationIsSoundAnywhere(v, d, top, bottom, delta, Pos(p, c));
      if r.Some? && DrawnExactly(r.value, d') {
        DrawnExactlyIsSound(r.value, d', p);
      }
    }
    if r.Some? && !DrawnExactly(r.value, d') {
      var p := DrawnExactlyIsNecessary(r.value, d');
      assert ScrollsAt(v, d, top, bottom, delta, Pos(p, c));
    }
  }

  /** The displayed cell that should be selected there afterwards was displayed as selected before. */
  ghost predicate WasShown(v: View, d: Dimensions, top: int, bottom: int, delta: int, p: Point)
    requires d.Valid() && v.ty.Simple?
  {
    if Scrolled(p.line, top, bottom, delta)
    then Scrolled(p.line + delta, top, bottom, delta) && Shows(v, d, Point(p.line + delta, p.column))
    else Shows(v, d, p)
  }

  lemma InsideByLine(p: Point, columns: nat, top: int, bottom: int, delta: int)
    requires p.column < columns
    ensures Inside(Pos(p, columns), columns, top, bottom, delta) <==> Scrolled(p.line, top, bottom, delta)
  {
    PosOrder(p, Point(top, 0), columns);
    PosOrder(p, Point(bottom, 0), columns);
  }

  /** For anchors in the grid and not across a row break, what should be selected is what was displayed. */
  lemma ShownIsExpected(v: View, d: Dimensions, top: int, bottom: int, delta: int, p: Point)
    requires d.Valid() && v.ty.Simple? && v.InGrid(d) && !AcrossRowBreak(v, d.columns) && p.column < d.columns
    ensures WasShown(v, d, top, bottom, delta, p) <==> Expected(v, d.columns, top, bottom, delta, Pos(p, d.columns))
  {
    hide Shows, Covers, Inside;
    var c, was := d.columns, Point(p.line + delta, p.column);
    Distribute(p.line, delta, c);
    assert Pos(was, c) == Pos(p, c) + delta * c;
    InsideByLine(p, c, top, bottom, delta);
    InsideByLine(was, c, top, bottom, delta);
    SimpleRangeExact(v, d, was);
    SimpleRangeExact(v, d, p);
  }

  /** From screen to screen: after a right rotation a cell is displayed as selected exactly if the cell scrolled into
      its place was, at every cell, exactly if the rotated anchors can be drawn. */
  lemma RotationFollowsDisplay(v: View, d: Dimensions, d': Dimensions, top: int, bottom: int, delta: int)
    requires d.Valid() && v.ty.Simple? && v.InGrid(d) && !AcrossRowBreak(v, d.columns) && RegionOfScreen(d, top, bottom)
    requires Scrolls(v, d, top, bottom, delta) && d'.Valid() && SameScreen(d, d')
    ensures var r := Rotated(v, d, top, bottom, delta);
            && (r.Some? ==> r.value.ty.Simple?)
            && ((forall p :: d'.InGrid(p) ==>
                   ((r.Some? && Shows(r.value, d', p)) <==> WasShown(v, d, top, bottom, delta, p)))
                <==> (r.None? || DrawnExactly(r.value, d')))
  {
    hide Rotated, Pos, Shows, DrawnExactly, Expected, Scrolls, WasShown, AcrossRowBreak;
    DisplayIsExpected(v, d, d', top, bottom, delta);
    forall p | d'.InGrid(p)
      ensures WasShown(v, d, top, bottom, delta, p) <==> Expected(v, d.columns, top, bottom, delta, Pos(p, d.columns))
    {
      ShownIsExpected(v, d, top, bottom, delta, p);
    }
  }

  /** So as long as the rotated anchors can be drawn, the screen is right at every cell exactly if rotation is. */
  lemma RotationIsDisplayedExactly(v: View, d: Dimensions, d': Dimensions, top: int, bottom: int, delta: int)
    requires d.Valid() && v.ty.Simple? && v.InGrid(d) && !AcrossRowBreak(v, d.columns) && RegionOfScreen(d, top, bottom)
    requires d'.Valid() && SameScreen(d, d') && d.totalLines <= d'.totalLines
    requires var r := Rotated(v, d, top, bottom, delta); r.None? || DrawnExactly(r.value, d')
    ensures var r := Rotated(v, d, top, bottom, delta);
            && (r.Some? ==> r.value.ty.Simple?)
            && ((forall p :: d'.InGrid(p) ==>
                   ((r.Some? && Shows(r.value, d', p)) <==> WasShown(v, d, top, bottom, delta, p)))
                <==> Scrolls(v, d, top, bottom, delta))
  {
    hide Rotated, Pos, Shows, DrawnExactly, Expected, Scrolls, WasShown, AcrossRowBreak, Covers;
    RotatedColumns(v, d, top, bottom, delta);
    if Scrolls(v, d, top, bottom, delta) {
      RotationFollowsDisplay(v, d, d', top, bottom, delta);
    } else {
      var r := Rotated(v, d, top, bottom, delta);
      var x := RotationIsWrongSomewhere(v, d, top, bottom, delta);
      var p := CellInGrid(d, d', x);
      ShownIsExpected(v, d, top, bottom, delta, p);
      if r.Some? {
        DrawnExactlyIsSound(r.value, d', p);
      }
      assert !ScrollsAt(v, d, top, bottom, delta, Pos(p, d.columns));
    }
  }

  lemma CellInGrid(d: Dimensions, d': Dimensions, x: int) returns (p: Point)
    requires d.Valid() && d'.Valid() && SameScreen(d, d') && d.totalLines <= d'.totalLines
    requires d.First() <= x < d.Beyond()
    ensures d'.InGrid(p) && Pos(p, d.columns) == x
  {
    p := Point(x / d.columns, x % d.columns);
    InGridByPos(d, p);
  }

  /** The rotated anchors can be drawn unless the upper one leaves the history at the top. */
  lemma RotatedIsDrawnExactly(v: View, d: Dimensions, d': Dimensions, top: int, bottom: int, delta: int)
    requires d.Valid() && v.ty.Simple? && v.InGrid(d) && !AcrossRowBreak(v, d.columns)
    requires Moves(v.start.point.line, top, bottom) && Moves(v.end.point.line, top, bottom)
    requires FollowsContent(v, d, top, bottom, delta) && d'.Valid() && SameScreen(d, d')
    requires v.Upper().point.line - delta >= d'.Topmost() || (top != 0 && top >= d'.Topmost())
    ensures var r := Rotated(v, d, top, bottom, delta);
            r.Some? ==> r.value.InGrid(d') && DrawnExactly(r.value, d')
  {
    hide Pos;
    var s, e := v.Upper(), v.Lower();
    var upper := RotateUpper(s, e, false, d, top, bottom, delta);
    if upper.Some? {
      var lower := RotateLower(upper.value, e, false, d, top, bottom, delta);
      if lower.Some? {
        assert Rotated(v, d, top, bottom, delta) == Some(v.WithOrdered(upper.value, lower.value));
        assert d'.InGrid(lower.value.point) && lower.value.point.line >= upper.value.point.line;
        NoNewRowBreak(s, e, upper.value, lower.value, d, delta);
      }
    }
  }

  /** Two anchors that keep their columns and move together, or are clamped to a row's outer side,
      do not come to face each other across a row break. */
  lemma NoNewRowBreak(s: Anchor, e: Anchor, upper: Anchor, lower: Anchor, d: Dimensions, delta: int)
    requires !(s.side == Right && e.side == Left && s.point.column + 1 == d.columns
               && e.point == Point(s.point.line + 1, 0))
    requires (upper == s.AtLine(s.point.line - delta) && lower == e.AtLine(e.point.line - delta))
             || upper.side == Left || lower.side == Right || lower.point.line == upper.point.line
    requires upper.point.line <= lower.point.line
    ensures !(upper.side == Right && lower.side == Left && upper.point.column + 1 == d.columns
              && lower.point == Point(upper.point.line + 1, 0))
  {
  }

  /** While the history still grows with every line scrolled off the top, that never happens. */
  lemma GrowingHistoryFollowsDisplay(v: View, d: Dimensions, bottom: int, delta: nat, p: Point)
    requires d.Valid() && v.ty.Simple? && v.InGrid(d) && !AcrossRowBreak(v, d.columns)
    requires RegionOfScreen(d, 0, bottom) && v.Lower().point.line < bottom
    ensures var d' := d.(totalLines := d.totalLines + delta);
            var r := Rotated(v, d, 0, bottom, delta);
            d'.InGrid(p) ==>
              && (r.Some? ==> r.value.ty.Simple?)
              && ((r.Some? && Shows(r.value, d', p)) <==> WasShown(v, d, 0, bottom, delta, p))
  {
    hide Rotated, Pos, Shows, DrawnExactly, WasShown, AcrossRowBreak;
    var d' := d.(totalLines := d.totalLines + delta);
    RotatedIsDrawnExactly(v, d, d', 0, bottom, delta);
    RotationFollowsDisplay(v, d, d', 0, bottom, delta);
  }

  /** A selection from the history to line 2 while lines 0 to 9 scroll down by one: its row in the history, which
      stays, is no longer displayed as selected, and the blank line 0 is. */
  lemma HistoryDoesNotScrollDown()
    ensures var d := Dimensions(20, 10, 5);
            var v := View(Simple, Anchor(Point(-1, 0), Left), Anchor(Point(2, 4), Right));
            var r := Rotated(v, d, 0, 10, -1);
            && !Scrolls(v, d, 0, 10, -1)
            && r == Some(View(Simple, Anchor(Point(0, 0), Left), Anchor(Point(3, 4), Right)))
            && Shows(v, d, Point(-1, 2)) && WasShown(v, d, 0, 10, -1, Point(-1, 2)) && !Shows(r.value, d, Point(-1, 2))
            && !WasShown(v, d, 0, 10, -1, Point(0, 2)) && Shows(r.value, d, Point(0, 2))
  {
    var d := Dimensions(20, 10, 5);
    var v := View(Simple, Anchor(Point(-1, 0), Left), Anchor(Point(2, 4), Right));
    var moved := View(Simple, Anchor(Point(0, 0), Left), Anchor(Point(3, 4), Right));
    assert Rotated(v, d, 0, 10, -1) == Some(moved);
    SimpleRangeExact(v, d, Point(-1, 2));
    SimpleRangeExact(moved, d, Point(-1, 2));
    SimpleRangeExact(moved, d, Point(0, 2));
  }

  /** Lines 2 to 7 scroll down by one inside a selection from line 0 to line 5: the blank line 2 becomes part of it. */
  lemma BlankLineIsSelected()
    ensures var d := Dimensions(10, 10, 5);
            var v := View(Simple, Anchor(Point(0, 1), Left), Anchor(Point(5, 3), Right));
            var r := Rotated(v, d, 2, 8, -1);
            && !Scrolls(v, d, 2, 8, -1)
            && r.Some? && Covers(r.value, 5, Pos(Point(2, 0), 5)) && !Expected(v, 5, 2, 8, -1, Pos(Point(2, 0), 5))
  {
    var d := Dimensions(10, 10, 5);
    var v := View(Simple, Anchor(Point(0, 1), Left), Anchor(Point(5, 3), Right));
    assert Rotated(v, d, 2, 8, -1) == Some(View(Simple, Anchor(Point(0, 1), Left), Anchor(Point(6, 3), Right)));
  }

  // ------------------------------------------------------------------------------------------
  // Resizing the screen
  // ------------------------------------------------------------------------------------------

  /** How many lines come down from the history, or go up to it, as the screen gets a new number of lines. */
  function ResizeDelta(lines: nat, oldLines: nat, cursor: nat, history: nat): int {
    Min(Max(lines - oldLines, Min(0, lines - cursor - 1)), history)
  }

  /** Then everything moves, the history included.  Rotation is right for every cell exactly under the condition for
      content, and always when the screen grows. */
  lemma ResizeFollowsContent(v: View, d: Dimensions, oldLines: nat, cursor: nat, history: nat)
    requires d.Valid() && v.ty.Simple? && v.ValidColumns(d)
    requires cursor < oldLines && v.start.point.line < oldLines && v.end.point.line < oldLines
    ensures var delta, bottom := -ResizeDelta(d.screenLines, oldLines, cursor, history), Max(d.screenLines, oldLines);
            && ((forall x :: FollowsAt(v, d, 0, bottom, delta, x)) <==> FollowsContent(v, d, 0, bottom, delta))
            && (d.screenLines >= oldLines ==> FollowsContent(v, d, 0, bottom, delta))
  {
    hide FollowsAt;
    var delta, bottom := -ResizeDelta(d.screenLines, oldLines, cursor, history), Max(d.screenLines, oldLines);
    if FollowsContent(v, d, 0, bottom, delta) {
      forall x ensures FollowsAt(v, d, 0, bottom, delta, x) {
        RotationIsSound(v, d, 0, bottom, delta, x);
      }
    } else {
      var x := RotationIsWrong(v, d, 0, bottom, delta);
    }
  }

  lemma BlockResizeFollowsContent(v: View, d: Dimensions, oldLines: nat, cursor: nat, history: nat)
    requires d.Valid() && v.ty.Block?
    requires cursor < oldLines && v.start.point.line < oldLines && v.end.point.line < oldLines
    ensures var delta, bottom := -ResizeDelta(d.screenLines, oldLines, cursor, history), Max(d.screenLines, oldLines);
            && ((forall p :: BlockFollowsAt(v, d, 0, bottom, delta, p))
                <==> BlockFollowsContent(v, d, 0, bottom, delta))
            && (d.screenLines >= oldLines ==> BlockFollowsContent(v, d, 0, bottom, delta))
  {
    hide BlockFollowsAt;
    var delta, bottom := -ResizeDelta(d.screenLines, oldLines, cursor, history), Max(d.screenLines, oldLines);
    if BlockFollowsContent(v, d, 0, bottom, delta) {
      forall p ensures BlockFollowsAt(v, d, 0, bottom, delta, p) {
        BlockRotationIsSound(v, d, 0, bottom, delta, p);
      }
    } else {
      var p := BlockRotationIsWrong(v, d, 0, bottom, delta);
    }
  }

  /** The screen shrinks from ten lines to five with the cursor on the first: line 4 stays, selected to its end before,
      and its last cell is no longer selected. */
  lemma ShrinkingLosesACell()
    ensures var d := Dimensions(5, 5, 5);
            var v := View(Simple, Anchor(Point(2, 1), Left), Anchor(Point(7, 3), Right));
            var r := Rotated(v, d, 0, 10, -ResizeDelta(5, 10, 0, 0));
            && ResizeDelta(5, 10, 0, 0) == 0
            && Shows(v, Dimensions(10, 10, 5), Point(4, 4)) && r.Some? && !Shows(r.value, d, Point(4, 4))
  {
    var d := Dimensions(5, 5, 5);
    var v := View(Simple, Anchor(Point(2, 1), Left), Anchor(Point(7, 3), Right));
    var moved := View(Simple, Anchor(Point(2, 1), Left), Anchor(Point(4, 3), Right));
    assert Rotated(v, d, 0, 10, 0) == Some(moved);
    SimpleRangeExact(v, Dimensions(10, 10, 5), Point(4, 4));
    SimpleRangeExact(moved, d, Point(4, 4));
  }

  // ------------------------------------------------------------------------------------------
  // Blocks
  // ------------------------------------------------------------------------------------------

  ghost predicate BlockExpected(v: View, top: int, bottom: int, delta: int, p: Point) {
    if Scrolled(p.line, top, bottom, delta)
    then Scrolled(p.line + delta, top, bottom, delta) && CoversBlock(v, Point(p.line + delta, p.column))
    else CoversBlock(v, p)
  }

  ghost predicate BlockScrollsAt(v: View, d: Dimensions, top: int, bottom: int, delta: int, p: Point)
    requires d.Valid()
  {
    var r := Rotated(v, d, top, bottom, delta);
    (r.Some? && CoversBlock(r.value, p)) <==> BlockExpected(v, top, bottom, delta, p)
  }

  /** The same for a Block, which keeps its columns: only its rows matter. */
  predicate BlockScrolls(v: View, d: Dimensions, top: int, bottom: int, delta: int) {
    var first, last := v.Upper().point.line, v.Lower().point.line;
    if v.start.ColumnEdge() == v.end.ColumnEdge() || delta == 0 then true
    else if top == 0 && delta < 0 && first < 0 then false
    else if Moves(first, top, bottom) && Moves(last, top, bottom) then BlockFollowsContent(v, d, top, bottom, delta)
    else if Moves(last, top, bottom) then delta > 0 && last - delta >= top - 1
    else if Moves(first, top, bottom) then delta < 0 && Min(first - delta, d.Bottommost()) <= bottom
    else first >= bottom || (top != 0 && last < top)
  }

  /** The rows and columns of the rotated block, wherever the anchors are. */
  lemma BlockRotatedRows(v: View, d: Dimensions, top: int, bottom: int, delta: int)
    requires d.Valid() && v.ty.Block? && RegionOfScreen(d, top, bottom) && NotBelow(v, d)
    requires !Moves(v.Upper().point.line, top, bottom) || !Moves(v.Lower().point.line, top, bottom)
    ensures var r := Rotated(v, d, top, bottom, delta);
            var upperIn, lowerIn := Moves(v.Upper().point.line, top, bottom), Moves(v.Lower().point.line, top, bottom);
            var first := if upperIn then Min(v.Upper().point.line - delta, d.Bottommost()) else v.Upper().point.line;
            var last := if lowerIn then Min(v.Lower().point.line - delta, d.Bottommost()) else v.Lower().point.line;
            var a := if upperIn && top != 0 then Max(top, first) else first;
            var b := if lowerIn then Min(bottom - 1, last) else last;
            && (r.None? <==> lowerIn && last < first)
            && (r.Some? ==>
                  && Min(r.value.start.ColumnEdge(), r.value.end.ColumnEdge())
                  == Min(v.start.ColumnEdge(), v.end.ColumnEdge())
                  && Max(r.value.start.ColumnEdge(), r.value.end.ColumnEdge())
                  == Max(v.start.ColumnEdge(), v.end.ColumnEdge())
                  && Min(r.value.start.point.line, r.value.end.point.line) == Min(a, b)
                  && Max(r.value.start.point.line, r.value.end.point.line) == Max(a, b))
  {
  }

  lemma BlockContentIsExpected(v: View, d: Dimensions, top: int, bottom: int, delta: int, p: Point)
    requires d.Valid() && v.ty.Block? && RegionOfScreen(d, top, bottom)
    requires Moves(v.start.point.line, top, bottom) && Moves(v.end.point.line, top, bottom)
    requires top == 0 && delta < 0 && v.Upper().point.line < 0 ==> v.start.ColumnEdge() == v.end.ColumnEdge()
    ensures BlockScrollsAt(v, d, top, bottom, delta, p) <==> BlockFollowsAt(v, d, top, bottom, delta, p)
  {
    hide Rotated;
  }

  /** Rotation moves a block's upper row in the history, which stays while the region scrolls down from line 0. */
  lemma BlockHistoryIsLeft(v: View, d: Dimensions, bottom: int, delta: int)
    requires d.Valid() && v.ty.Block? && RegionOfScreen(d, 0, bottom) && NotBelow(v, d)
    requires delta < 0 && v.Upper().point.line < 0 && v.start.ColumnEdge() != v.end.ColumnEdge()
    ensures var p := Point(v.Upper().point.line, Min(v.start.ColumnEdge(), v.end.ColumnEdge()));
            !BlockScrollsAt(v, d, 0, bottom, delta, p)
  {
    if Moves(v.Lower().point.line, 0, bottom) {
      BlockRotationRows(v, d, 0, bottom, delta);
    } else {
      BlockRotatedRows(v, d, 0, bottom, delta);
    }
  }

  lemma BlockRotationIsSoundAnywhere(v: View, d: Dimensions, top: int, bottom: int, delta: int, p: Point)
    requires d.Valid() && v.ty.Block? && RegionOfScreen(d, top, bottom) && NotBelow(v, d)
    requires BlockScrolls(v, d, top, bottom, delta)
    ensures BlockScrollsAt(v, d, top, bottom, delta, p)
  {
    hide Rotated;
    if Moves(v.Upper().point.line, top, bottom) && Moves(v.Lower().point.line, top, bottom) {
      BlockContentIsExpected(v, d, top, bottom, delta, p);
      BlockRotationIsSound(v, d, top, bottom, delta, p);
    } else {
      BlockRotatedRows(v, d, top, bottom, delta);
    }
  }

  lemma BlockRotationIsWrongSomewhere(v: View, d: Dimensions, top: int, bottom: int, delta: int) returns (p: Point)
    requires d.Valid() && v.ty.Block? && RegionOfScreen(d, top, bottom) && NotBelow(v, d)
    requires !BlockScrolls(v, d, top, bottom, delta)
    ensures !BlockScrollsAt(v, d, top, bottom, delta, p)
  {
    hide Rotated;
    var upperIn, lowerIn := Moves(v.Upper().point.line, top, bottom), Moves(v.Lower().point.line, top, bottom);
    var column := Min(v.start.ColumnEdge(), v.end.ColumnEdge());
    if top == 0 && delta < 0 && v.Upper().point.line < 0 {
      p := Point(v.Upper().point.line, column);
      BlockHistoryIsLeft(v, d, bottom, delta);
    } else if upperIn && lowerIn {
      p := BlockRotationIsWrong(v, d, top, bottom, delta);
      BlockContentIsExpected(v, d, top, bottom, delta, p);
    } else {
      var line := if lowerIn then (if delta > 0 then top - 1 else top)
                  else if upperIn && delta > 0 then bottom - 1
                  else if upperIn then
                    (if v.Lower().point.line > bottom then bottom
                     else Min(v.Upper().point.line - delta, d.Bottommost()))
                  else if delta > 0 then bottom - 1 else top;
      p := Point(line, column);
      BlockRotatedRows(v, d, top, bottom, delta);
    }
  }
}
