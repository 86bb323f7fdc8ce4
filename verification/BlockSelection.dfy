/** Block selections whose anchors are on any row, inside the grid or not.

    An anchor outside the grid is clamped to the grid's first or last cell, which changes its column; the displayed
    rectangle is then the meant one only when the columns happen to fit. */
module BlockSelections {
  import opened Grid
  import opened Selections
  import opened Wrappers

  /** The anchors a range is made of. */
  function ClampedUpper(v: View, d: Dimensions): Anchor
    requires d.Valid()
  {
    Anchor(Clamp(v.Upper().point, d, Boundary.Grid), v.Upper().side)
  }

  function ClampedLower(v: View, d: Dimensions): Anchor
    requires d.Valid()
  {
    Anchor(Clamp(v.Lower().point, d, Boundary.Grid), v.Lower().side)
  }

  /** The anchor nearer to the left, and the one nearer to the right; each takes the other's row if they swap. */
  function Leftmost(a: Anchor, b: Anchor): Anchor {
    if a.point.column > b.point.column then Anchor(Point(a.point.line, b.point.column), b.side) else a
  }

  function Rightmost(a: Anchor, b: Anchor): Anchor {
    if a.point.column > b.point.column then Anchor(Point(b.point.line, a.point.column), a.side) else b
  }

  /** The last displayed column, for the anchors in that order. */
  function LastShown(left: Anchor, right: Anchor): nat {
    if right.side == Left && left.point != right.point && right.point.column > 0 then right.point.column - 1
    else right.point.column
  }

  function FirstShown(left: Anchor, right: Anchor): nat {
    if left.side == Right && left.point != Point(right.point.line, LastShown(left, right)) then left.point.column + 1
    else left.point.column
  }

  lemma ShownRectangle(v: View, d: Dimensions, p: Point)
    requires d.Valid() && v.ty.Block? && v.ValidColumns(d)
    requires !IsEmpty(v) && v.Lower().point.line >= d.Topmost()
    ensures var a, b := ClampedUpper(v, d), ClampedLower(v, d);
            var left, right := Leftmost(a, b), Rightmost(a, b);
            && ToRange(v, d) == Some(SelectionRange(Point(a.point.line, FirstShown(left, right)),
                                                    Point(b.point.line, LastShown(left, right)), true))
            && (Shows(v, d, p) <==> a.point.line <= p.line <= b.point.line
                                    && FirstShown(left, right) <= p.column <= LastShown(left, right))
  {
  }

  /** A block is empty exactly if its column edges coincide. */
  lemma EmptyByColumnEdges(v: View)
    requires v.ty.Block?
    ensures IsEmpty(v) <==> v.start.ColumnEdge() == v.end.ColumnEdge()
  {
  }

  /** When the display of a Block is exact, for anchors on any row.  The anchor clamped to the first cell has to be
      in the first column anyway, the one clamped to the last cell in the last one; the other cases are small
      rectangles at the grid's corners where the columns agree by accident. */
  predicate BlockDrawnExactly(v: View, d: Dimensions)
    requires d.Valid()
  {
    var s, e := v.Upper(), v.Lower();
    var (sc, ec, last) := (s.point.column, e.point.column, d.LastColumn());
    var above, below := s.point.line < d.Topmost(), e.point.line > d.Bottommost();
    if IsEmpty(v) || e.point.line < d.Topmost() then true
    else if s.point.line > d.Bottommost() then false
    else if above && below then
      || (sc == 0 && ec == last && (last > 0 || s.side == Left || d.totalLines == 1))
      || (ec == 0 && e.side == Left && s.side == Left && sc == last && last > 0)
      || (ec == 0 && e.side == Left && s.side == Right && sc == 0 && last == 1 && d.totalLines == 1)
      || (ec == 0 && e.side == Right && s.side == Right && sc == last && last > 0)
      || (ec == 1 && e.side == Left && s.side == Right && sc + 1 == last && last > 1)
    else if above then
      if e.ColumnEdge() == 0 then (sc == 1 && s.side == Left) || (sc == 0 && e.point.line == d.Topmost())
      else sc == 0
    else if below then
      || (ec == last && !(sc == last && s.side == Right && e.side == Left))
      || (s.point == Point(d.Bottommost(), last) && s.side == Right && e.ColumnEdge() == last)
      || (s.point.line == d.Bottommost() && sc + 1 == last && s.side == Right && e.side == Left && ec + 1 == last)
    else !PinchedColumn(v)
  }

  /** The displayed columns are the meant ones. */
  predicate ColumnsFit(v: View, d: Dimensions)
    requires d.Valid()
  {
    var a, b := ClampedUpper(v, d), ClampedLower(v, d);
    && FirstShown(Leftmost(a, b), Rightmost(a, b)) == Min(v.start.ColumnEdge(), v.end.ColumnEdge())
    && LastShown(Leftmost(a, b), Rightmost(a, b)) + 1 == Max(v.start.ColumnEdge(), v.end.ColumnEdge())
  }

  lemma ColumnsFitAbove(v: View, d: Dimensions)
    requires d.Valid() && v.ty.Block? && v.ValidColumns(d) && !IsEmpty(v)
    requires v.Upper().point.line < d.Topmost() <= v.Lower().point.line <= d.Bottommost()
    ensures BlockDrawnExactly(v, d) <==> ColumnsFit(v, d)
  {
  }

  lemma ColumnsFitBelow(v: View, d: Dimensions)
    requires d.Valid() && v.ty.Block? && v.ValidColumns(d) && !IsEmpty(v)
    requires d.Topmost() <= v.Upper().point.line <= d.Bottommost() < v.Lower().point.line
    ensures BlockDrawnExactly(v, d) <==> ColumnsFit(v, d)
  {
  }

  lemma ColumnsFitAround(v: View, d: Dimensions)
    requires d.Valid() && v.ty.Block? && v.ValidColumns(d) && !IsEmpty(v)
    requires v.Upper().point.line < d.Topmost() && v.Lower().point.line > d.Bottommost()
    ensures BlockDrawnExactly(v, d) <==> ColumnsFit(v, d)
  {
  }

  lemma ColumnsFitInside(v: View, d: Dimensions)
    requires d.Valid() && v.ty.Block? && v.InGrid(d) && !IsEmpty(v)
    ensures BlockDrawnExactly(v, d) <==> ColumnsFit(v, d)
  {
  }

  lemma FitsExactly(v: View, d: Dimensions)
    requires d.Valid() && v.ty.Block? && v.ValidColumns(d) && !IsEmpty(v)
    requires v.Lower().point.line >= d.Topmost() && v.Upper().point.line <= d.Bottommost()
    ensures BlockDrawnExactly(v, d) <==> ColumnsFit(v, d)
  {
    hide BlockDrawnExactly, ColumnsFit, IsEmpty;
    if v.Upper().point.line < d.Topmost() {
      if v.Lower().point.line > d.Bottommost() {
        ColumnsFitAround(v, d);
      } else {
        ColumnsFitAbove(v, d);
      }
    } else if v.Lower().point.line > d.Bottommost() {
      ColumnsFitBelow(v, d);
    } else {
      ColumnsFitInside(v, d);
    }
  }

  /** Rows are clamped to the grid, which loses no displayed row. */
  lemma RowsFit(v: View, d: Dimensions, p: Point)
    requires d.Valid() && d.InGrid(p) && v.Lower().point.line >= d.Topmost() && v.Upper().point.line <= d.Bottommost()
    ensures ClampedUpper(v, d).point.line <= p.line <= ClampedLower(v, d).point.line
       <==> Min(v.start.point.line, v.end.point.line) <= p.line <= Max(v.start.point.line, v.end.point.line)
  {
  }

  lemma BlockDrawnExactlyIsSound(v: View, d: Dimensions, p: Point)
    requires d.Valid() && v.ty.Block? && v.ValidColumns(d) && d.InGrid(p)
    requires BlockDrawnExactly(v, d)
    ensures Shows(v, d, p) <==> CoversBlock(v, p)
  {
    EmptyByColumnEdges(v);
    if !IsEmpty(v) && v.Lower().point.line >= d.Topmost() {
      hide IsEmpty, Shows, ToRange, FirstShown, LastShown, Leftmost, Rightmost;
      ShownRectangle(v, d, p);
      FitsExactly(v, d);
      RowsFit(v, d, p);
    }
  }

  /** When the condition fails, some cell of the grid is displayed wrongly. */
  lemma BlockDrawnExactlyIsNecessary(v: View, d: Dimensions) returns (p: Point)
    requires d.Valid() && v.ty.Block? && v.ValidColumns(d)
    requires !BlockDrawnExactly(v, d)
    ensures d.InGrid(p) && Shows(v, d, p) != CoversBlock(v, p)
  {
    EmptyByColumnEdges(v);
    var a, b := ClampedUpper(v, d), ClampedLower(v, d);
    if v.Upper().point.line > d.Bottommost() {
      p := Point(d.Bottommost(), d.LastColumn());
      ShownRectangle(v, d, p);
    } else {
      hide IsEmpty, Shows, ToRange;
      FitsExactly(v, d);
      var left, right := Leftmost(a, b), Rightmost(a, b);
      var first, beyond := Min(v.start.ColumnEdge(), v.end.ColumnEdge()), Max(v.start.ColumnEdge(), v.end.ColumnEdge());
      var f, l := FirstShown(left, right), LastShown(left, right);
      var column := if !(f <= first <= l) then first else if !(f <= beyond - 1 <= l) then beyond - 1
                    else if f < first then f else l;
      p := Point(b.point.line, column);
      ShownRectangle(v, d, p);
      RowsFit(v, d, p);
    }
  }

  /** An alternate screen has no history: a block scrolled up by one row past its top is displayed from the first
      column on. */
  lemma ScrolledBlockGrows()
    ensures var d := Dimensions(10, 10, 8);
            var v := View(Block, Anchor(Point(0, 3), Left), Anchor(Point(3, 5), Right));
            var r := Rotated(v, d, 0, 10, 1);
            && r == Some(View(Block, Anchor(Point(-1, 3), Left), Anchor(Point(2, 5), Right)))
            && !BlockDrawnExactly(r.value, d) && Shows(r.value, d, Point(1, 1)) && !CoversBlock(r.value, Point(1, 1))
  {
    var d := Dimensions(10, 10, 8);
    var r := View(Block, Anchor(Point(-1, 3), Left), Anchor(Point(2, 5), Right));
    assert ToRange(r, d) == Some(SelectionRange(Point(0, 0), Point(2, 5), true));
  }

  /** On different rows, the trimmed columns pass each other. */
  predicate Crossed(left: Anchor, right: Anchor) {
    && left.point.line != right.point.line
    && if left.point.column == right.point.column
       then (if right.side == Left && right.point.column > 0 then true else left.side == Right)
       else left.point.column + 1 == right.point.column && left.side == Right && right.side == Left
  }

  lemma CrossedColumns(left: Anchor, right: Anchor)
    requires left.point.column <= right.point.column
    ensures FirstShown(left, right) <= LastShown(left, right) <==> !Crossed(left, right)
  {
  }

  lemma ClampedRows(v: View, d: Dimensions)
    requires d.Valid()
    ensures d.Topmost() <= ClampedUpper(v, d).point.line <= ClampedLower(v, d).point.line <= d.Bottommost()
    ensures Leftmost(ClampedUpper(v, d), ClampedLower(v, d)).point.column
         <= Rightmost(ClampedUpper(v, d), ClampedLower(v, d)).point.column
  {
  }

  /** For anchors on any row: no range exactly for an empty block or one above the grid; otherwise the range's rows
      are inside the grid and in order, and its columns are in order exactly if the clamped anchors do not cross. */
  lemma BlockColumnsOrdered(v: View, d: Dimensions)
    requires d.Valid() && v.ty.Block? && v.ValidColumns(d)
    ensures ToRange(v, d).None? <==> v.start.ColumnEdge() == v.end.ColumnEdge() || v.Lower().point.line < d.Topmost()
    ensures ToRange(v, d).Some? ==>
              var r := ToRange(v, d).value;
              var a, b := ClampedUpper(v, d), ClampedLower(v, d);
              && d.Topmost() <= r.start.line <= r.end.line <= d.Bottommost()
              && (r.start.column <= r.end.column <==> !Crossed(Leftmost(a, b), Rightmost(a, b)))
  {
    EmptyByColumnEdges(v);
    if !IsEmpty(v) && v.Lower().point.line >= d.Topmost() {
      hide IsEmpty, ToRange, Shows, FirstShown, LastShown, Crossed, Leftmost, Rightmost, ClampedUpper, ClampedLower;
      ShownRectangle(v, d, Point(0, 0));
      ClampedRows(v, d);
      CrossedColumns(Leftmost(ClampedUpper(v, d), ClampedLower(v, d)),
                     Rightmost(ClampedUpper(v, d), ClampedLower(v, d)));
    }
  }
}
