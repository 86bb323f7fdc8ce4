/** Text selections: half-cell anchors, the ranges they display as, and how they follow scrolling.

    Cells are numbered along the endless strip of rows (module Grid).  An anchor sits on one of the
    two sides of a cell, which is an edge between two cells: the edge before cell x has number x.  A
    Simple selection means the cells between its two edges; a Block selection means a rectangle whose
    columns lie between its two column edges. */
module Selections {
  import opened Grid
  import opened Wrappers

  datatype SelectionType = Simple | Block | Semantic | Lines

  datatype Anchor = Anchor(point: Point, side: Side) {
    function Edge(columns: nat): int {
      Pos(point, columns) + HalfCell()
    }

    function ColumnEdge(): int { point.column + HalfCell() }

    function HalfCell(): int { if side == Right then 1 else 0 }

    function AtLine(line: int): Anchor { Anchor(Point(line, point.column), side) }
  }

  datatype SelectionRange = SelectionRange(start: Point, end: Point, isBlock: bool) {
    predicate Contains(p: Point) {
      && start.line <= p.line
      && end.line >= p.line
      && (start.column <= p.column || (start.line != p.line && !isBlock))
      && (end.column >= p.column || (end.line != p.line && !isBlock))
    }
  }

  /** The value of a selection; `start` is where the drag began. */
  datatype View = View(ty: SelectionType, start: Anchor, end: Anchor) {
    predicate Swapped() { Less(end.point, start.point) }

    function Upper(): Anchor { if Swapped() then end else start }

    function Lower(): Anchor { if Swapped() then start else end }

    /** Replaces the upper and the lower anchor, keeping which of them began the drag. */
    function WithOrdered(upper: Anchor, lower: Anchor): View {
      if Swapped() then View(ty, lower, upper) else View(ty, upper, lower)
    }

    predicate ValidColumns(d: Dimensions) {
      start.point.column < d.columns && end.point.column < d.columns
    }

    predicate InGrid(d: Dimensions) {
      d.InGrid(start.point) && d.InGrid(end.point)
    }

    function FirstEdge(columns: nat): int {
      Min(start.Edge(columns), end.Edge(columns))
    }

    function LastEdge(columns: nat): int {
      Max(start.Edge(columns), end.Edge(columns))
    }
  }

  /** The cells a Simple selection means. */
  ghost predicate Covers(v: View, columns: nat, x: int) {
    v.FirstEdge(columns) <= x < v.LastEdge(columns)
  }

  /** The cells a Block selection means. */
  ghost predicate CoversBlock(v: View, p: Point) {
    && Min(v.start.point.line, v.end.point.line) <= p.line <= Max(v.start.point.line, v.end.point.line)
    && Min(v.start.ColumnEdge(), v.end.ColumnEdge()) <= p.column < Max(v.start.ColumnEdge(), v.end.ColumnEdge())
  }

  // ------------------------------------------------------------------------------------------
  // Conversion to a range
  // ------------------------------------------------------------------------------------------

  predicate IsEmpty(v: View) {
    match v.ty
    case Simple =>
      var s, e := v.Upper(), v.Lower();
      s == e || (s.side == Right && e.side == Left && s.point.line == e.point.line
                 && s.point.column + 1 == e.point.column)
    case Block =>
      var s, e := v.start, v.end;
      || (s.point.column == e.point.column && s.side == e.side)
      || (s.point.column + 1 == e.point.column && s.side == Right && e.side == Left)
      || (e.point.column + 1 == s.point.column && s.side == Left && e.side == Right)
    case _ => false
  }

  function StepBack(p: Point, columns: nat): Point
    requires columns >= 1
  {
    if p.column == 0 then Point(p.line - 1, columns - 1) else Point(p.line, p.column - 1)
  }

  function StepForward(p: Point, columns: nat): Point {
    if p.column + 1 == columns then Point(p.line + 1, 0) else Point(p.line, p.column + 1)
  }

  function RangeSimple(v: View, start: Anchor, end: Anchor, columns: nat): Option<SelectionRange>
    requires columns >= 1
  {
    if IsEmpty(v) then None
    else
      var last := if end.side == Left && start.point != end.point then StepBack(end.point, columns) else end.point;
      var first :=
        if start.side == Right && start.point != last then StepForward(start.point, columns) else start.point;
      Some(SelectionRange(first, last, false))
  }

  function RangeBlock(v: View, start: Anchor, end: Anchor): Option<SelectionRange> {
    if IsEmpty(v) then None
    else
      var flip := start.point.column > end.point.column;
      var s := if flip then Anchor(Point(start.point.line, end.point.column), end.side) else start;
      var e := if flip then Anchor(Point(end.point.line, start.point.column), start.side) else end;
      var last := if e.side == Left && s.point != e.point && e.point.column > 0
                  then Point(e.point.line, e.point.column - 1) else e.point;
      var first := if s.side == Right && s.point != last
                   then Point(s.point.line, s.point.column + 1) else s.point;
      Some(SelectionRange(first, last, true))
  }

  /** The range shown for a selection; the two kinds that search the text are not part of this model. */
  function ToRange(v: View, d: Dimensions): Option<SelectionRange>
    requires d.Valid() && (v.ty.Simple? || v.ty.Block?)
  {
    if v.Lower().point.line < d.Topmost() then None
    else
      var start := Anchor(Clamp(v.Upper().point, d, Boundary.Grid), v.Upper().side);
      var end := Anchor(Clamp(v.Lower().point, d, Boundary.Grid), v.Lower().side);
      if v.ty.Simple? then RangeSimple(v, start, end, d.columns) else RangeBlock(v, start, end)
  }

  ghost predicate Shows(v: View, d: Dimensions, p: Point)
    requires d.Valid() && (v.ty.Simple? || v.ty.Block?)
  {
    ToRange(v, d).Some? && ToRange(v, d).value.Contains(p)
  }

  lemma OrderedEdges(v: View, columns: nat)
    requires v.start.point.column < columns && v.end.point.column < columns
    ensures v.Upper().point != v.Lower().point ==> v.Upper().Edge(columns) <= v.Lower().Edge(columns)
    ensures v.Upper().point != v.Lower().point ==>
              v.FirstEdge(columns) == v.Upper().Edge(columns) && v.LastEdge(columns) == v.Lower().Edge(columns)
    ensures Pos(v.Upper().point, columns) <= Pos(v.Lower().point, columns)
  {
    PosOrder(v.start.point, v.end.point, columns);
    PosOrder(v.end.point, v.start.point, columns);
  }

  lemma StepsByOne(p: Point, columns: nat)
    requires p.column < columns
    ensures Pos(StepBack(p, columns), columns) == Pos(p, columns) - 1
    ensures Pos(StepForward(p, columns), columns) == Pos(p, columns) + 1
    ensures StepBack(p, columns).column < columns && StepForward(p, columns).column < columns
  {
    Distribute(p.line, -1, columns);
    Distribute(p.line, 1, columns);
  }

  /** A non-block range contains exactly the cells numbered from its start to its end. */
  lemma ContainsByPos(r: SelectionRange, p: Point, columns: nat)
    requires !r.isBlock && r.start.column < columns && r.end.column < columns && p.column < columns
    ensures r.Contains(p) <==> Pos(r.start, columns) <= Pos(p, columns) <= Pos(r.end, columns)
  {
    PosOrder(p, r.start, columns);
    PosOrder(r.end, p, columns);
  }

  /** The single-row emptiness test sees every pair of equal edges but the one across a row break. */
  lemma EmptyByEdges(v: View, columns: nat)
    requires v.ty.Simple? && v.start.point.column < columns && v.end.point.column < columns
    ensures IsEmpty(v) <==> v.start.Edge(columns) == v.end.Edge(columns) && !AcrossRowBreak(v, columns)
  {
    var s, e := v.Upper(), v.Lower();
    PosOrder(s.point, e.point, columns);
    if s.point == e.point {
    } else if s.Edge(columns) == e.Edge(columns) {
      StepsByOne(s.point, columns);
      PosOrder(StepForward(s.point, columns), e.point, columns);
    } else if s.point.line == e.point.line {
      assert Pos(e.point, columns) - Pos(s.point, columns) == e.point.column - s.point.column;
    }
  }

  /** The upper anchor is right of a row's last column, the lower one left of the next row's first. */
  predicate AcrossRowBreak(v: View, columns: nat) {
    var s, e := v.Upper(), v.Lower();
    && s.side == Right && e.side == Left
    && s.point.column + 1 == columns && e.point == Point(s.point.line + 1, 0)
  }

  /** The range of a non-empty selection, in cell numbers: its two clamped edges, or one cell when
      the clamped points coincide or no cell is left between the edges. */
  lemma RangeSimpleByPos(v: View, d: Dimensions)
    requires d.Valid() && v.ty.Simple? && v.ValidColumns(d)
    requires !IsEmpty(v) && v.Lower().point.line >= d.Topmost()
    ensures ToRange(v, d).Some?
    ensures var r := ToRange(v, d).value;
            var s := Anchor(Clamp(v.Upper().point, d, Boundary.Grid), v.Upper().side);
            var e := Anchor(Clamp(v.Lower().point, d, Boundary.Grid), v.Lower().side);
            && !r.isBlock && r.start.column < d.columns && r.end.column < d.columns
            && d.InGrid(s.point) && d.InGrid(e.point) && Pos(s.point, d.columns) <= Pos(e.point, d.columns)
            && Pos(r.start, d.columns) <= Pos(r.end, d.columns)
            && if s.point != e.point && s.Edge(d.columns) < e.Edge(d.columns)
               then Pos(r.start, d.columns) == s.Edge(d.columns) && Pos(r.end, d.columns) == e.Edge(d.columns) - 1
               else r.start == s.point && r.end == s.point
  {
    var c := d.columns;
    var s := Anchor(Clamp(v.Upper().point, d, Boundary.Grid), v.Upper().side);
    var e := Anchor(Clamp(v.Lower().point, d, Boundary.Grid), v.Lower().side);
    ClampIsAProjection(v.Upper().point, v.Lower().point, d, Boundary.Grid);
    ClampIsAProjection(v.Lower().point, v.Upper().point, d, Boundary.Grid);
    PosOrder(s.point, e.point, c);
    StepsByOne(s.point, c);
    StepsByOne(e.point, c);
    PosOrder(s.point, StepBack(e.point, c), c);
  }

  /** Whatever rows the anchors are on, a displayed Simple range is ordered and inside the grid. */
  lemma SimpleRangeWellFormed(v: View, d: Dimensions)
    requires d.Valid() && v.ty.Simple? && v.ValidColumns(d)
    ensures ToRange(v, d).Some? ==>
              && d.InGrid(ToRange(v, d).value.start) && d.InGrid(ToRange(v, d).value.end)
              && AtMost(ToRange(v, d).value.start, ToRange(v, d).value.end)
  {
    if ToRange(v, d).Some? {
      RangeSimpleByPos(v, d);
      var r := ToRange(v, d).value;
      var s := Anchor(Clamp(v.Upper().point, d, Boundary.Grid), v.Upper().side);
      var e := Anchor(Clamp(v.Lower().point, d, Boundary.Grid), v.Lower().side);
      InGridByPos(d, s.point);
      InGridByPos(d, e.point);
      InGridByPos(d, r.start);
      InGridByPos(d, r.end);
      PosOrder(r.start, r.end, d.columns);
    }
  }

  /** For anchors inside the grid, the displayed cells are the ones between the two edges, unless the
      edges coincide across a row break, where the upper anchor's cell is displayed. */
  lemma SimpleRangeExact(v: View, d: Dimensions, p: Point)
    requires d.Valid() && v.ty.Simple? && v.InGrid(d) && p.column < d.columns
    ensures Shows(v, d, p) <==>
            if AcrossRowBreak(v, d.columns) then p == v.Upper().point else Covers(v, d.columns, Pos(p, d.columns))
  {
    var c := d.columns;
    EmptyByEdges(v, c);
    OrderedEdges(v, c);
    ClampIsAProjection(v.Upper().point, v.Lower().point, d, Boundary.Grid);
    ClampIsAProjection(v.Lower().point, v.Upper().point, d, Boundary.Grid);
    if AcrossRowBreak(v, c) {
      PosOrder(v.Upper().point, v.Lower().point, c);
      LineGap(v.Upper().point.line, v.Upper().point.line + 1, c);
      Distribute(v.Upper().point.line, 1, c);
    }
    if !IsEmpty(v) {
      RangeSimpleByPos(v, d);
      ContainsByPos(ToRange(v, d).value, p, c);
      PosOrder(p, v.Upper().point, c);
      PosOrder(v.Upper().point, v.Lower().point, c);
    }
  }

  /** When the display of a Simple selection is exact, for anchors on any row.  Clamping an anchor to
      the grid keeps its side, so a side that cuts off a cell of a row outside the grid cuts off a
      cell inside it instead, and a selection wholly below the grid displays the last cell. */
  predicate DrawnExactly(v: View, d: Dimensions)
    requires d.Valid()
  {
    var s, e := v.Upper(), v.Lower();
    var above, below := s.point.line < d.Topmost(), e.point.line > d.Bottommost();
    if IsEmpty(v) || e.point.line < d.Topmost() then true
    else if s.point.line > d.Bottommost() then false
    else if above && below then (s.side == Left && e.side == Right) || d.Beyond() == d.First() + 1
    else if above then
      e.Edge(d.columns) == d.First() + 1 || (s.side == Left && e.Edge(d.columns) > d.First())
    else if below then
      s.Edge(d.columns) < d.Beyond() && (e.side == Right || s.point == Point(d.Bottommost(), d.LastColumn()))
    else !AcrossRowBreak(v, d.columns)
  }

  lemma DrawnExactlyIsSound(v: View, d: Dimensions, p: Point)
    requires d.Valid() && v.ty.Simple? && v.ValidColumns(d) && d.InGrid(p)
    requires DrawnExactly(v, d)
    ensures Shows(v, d, p) <==> Covers(v, d.columns, Pos(p, d.columns))
  {
    hide Shows, Pos;
    var c := d.columns;
    var s, e := v.Upper(), v.Lower();
    EmptyByEdges(v, c);
    OrderedEdges(v, c);
    InGridByPos(d, p);
    RowsByPos(d, s.point);
    RowsByPos(d, e.point);
    if IsEmpty(v) || e.point.line < d.Topmost() {
      NothingShown(v, d, p);
    } else {
      CornerByPos(d, s.point);
      DisplayedCells(v, d, p);
      ClampedCells(d.First(), d.Beyond(), Pos(s.point, c), s.HalfCell(), Pos(e.point, c), e.HalfCell(), Pos(p, c));
    }
  }

  lemma NothingShown(v: View, d: Dimensions, p: Point)
    requires d.Valid() && v.ty.Simple? && (IsEmpty(v) || v.Lower().point.line < d.Topmost())
    ensures !Shows(v, d, p)
  {
  }

  lemma RowsByPos(d: Dimensions, p: Point)
    requires d.Valid() && p.column < d.columns
    ensures p.line < d.Topmost() <==> Pos(p, d.columns) < d.First()
    ensures p.line > d.Bottommost() <==> Pos(p, d.columns) >= d.Beyond()
    ensures d.First() < d.Beyond()
  {
    PosOrder(p, Point(d.Topmost(), 0), d.columns);
    PosOrder(p, Point(d.Bottommost() + 1, 0), d.columns);
    LineGap(d.Topmost(), d.Bottommost() + 1, d.columns);
  }

  lemma CornerByPos(d: Dimensions, p: Point)
    requires d.Valid() && p.column < d.columns
    ensures p == Point(d.Bottommost(), d.LastColumn()) <==> Pos(p, d.columns) == d.Beyond() - 1
  {
    Distribute(d.Bottommost(), 1, d.columns);
    PosOrder(p, Point(d.Bottommost(), d.LastColumn()), d.columns);
    PosOrder(Point(d.Bottommost(), d.LastColumn()), p, d.columns);
  }

  /** The heart of it, in cell numbers: two edges, each a cell and one of its halves, with the cells clamped. */
  lemma ClampedCells(first: int, beyond: int, s: int, sHalf: int, e: int, eHalf: int, x: int)
    requires first <= x < beyond && s <= e && first <= e && 0 <= sHalf <= 1 && 0 <= eHalf <= 1
    requires s + sHalf != e + eHalf && s < beyond
    requires
      if s < first && e >= beyond then (sHalf == 0 && eHalf == 1) || beyond == first + 1
      else if s < first then e + eHalf == first + 1 || (sHalf == 0 && e + eHalf > first)
      else if e >= beyond then s + sHalf < beyond && (eHalf == 1 || s == beyond - 1)
      else true
    ensures var cs, ce := Max(first, s), Min(beyond - 1, e);
            (if cs != ce && cs + sHalf < ce + eHalf then cs + sHalf <= x < ce + eHalf else x == cs)
            <==> Min(s + sHalf, e + eHalf) <= x < Max(s + sHalf, e + eHalf)
  {
  }

  /** The displayed cells in numbers, with the clamped anchors spelled out. */
  lemma DisplayedCells(v: View, d: Dimensions, p: Point)
    requires d.Valid() && v.ty.Simple? && v.ValidColumns(d) && d.InGrid(p)
    requires !IsEmpty(v) && v.Lower().point.line >= d.Topmost()
    ensures var s, e := v.Upper(), v.Lower();
            var sp := Settle(Pos(s.point, d.columns), d, Boundary.Grid);
            var ep := Settle(Pos(e.point, d.columns), d, Boundary.Grid);
            Shows(v, d, p) <==>
              if sp != ep && sp + s.HalfCell() < ep + e.HalfCell()
              then sp + s.HalfCell() <= Pos(p, d.columns) < ep + e.HalfCell()
              else Pos(p, d.columns) == sp
  {
    RangeSimpleByPos(v, d);
    ContainsByPos(ToRange(v, d).value, p, d.columns);
    ClampSettles(v.Upper().point, d, Boundary.Grid);
    ClampSettles(v.Lower().point, d, Boundary.Grid);
    PosOrder(Clamp(v.Upper().point, d, Boundary.Grid), Clamp(v.Lower().point, d, Boundary.Grid), d.columns);
  }

  /** When the condition fails, some cell of the grid is displayed wrongly. */
  lemma DrawnExactlyIsNecessary(v: View, d: Dimensions) returns (p: Point)
    requires d.Valid() && v.ty.Simple? && v.ValidColumns(d)
    requires !DrawnExactly(v, d)
    ensures d.InGrid(p)
    ensures Shows(v, d, p) != Covers(v, d.columns, Pos(p, d.columns))
  {
    var c := d.columns;
    var s, e := v.Upper(), v.Lower();
    var firstCell, lastCell := Point(d.Topmost(), 0), Point(d.Bottommost(), d.LastColumn());
    p := if s.point.line > d.Bottommost() then lastCell
         else if s.point.line < d.Topmost() && (e.point.line <= d.Bottommost() || e.side == Right) then firstCell
         else if e.point.line > d.Bottommost() then lastCell
         else s.point;
    InGridByPos(d, p);
    InGridByPos(d, s.point);
    InGridByPos(d, e.point);
    OrderedEdges(v, c);
    EmptyByEdges(v, c);
    DisplayedCells(v, d, p);
    PosOrder(s.point, lastCell, c);
    assert Pos(lastCell, c) == d.Beyond() - 1 by { Distribute(d.Bottommost(), 1, c); }
  }

  // ------------------------------------------------------------------------------------------
  // Block ranges
  // ------------------------------------------------------------------------------------------

  /** Two anchors of one column on different rows, the upper on its right side and the lower on its left. */
  predicate PinchedColumn(v: View) {
    var s, e := v.Upper(), v.Lower();
    && s.point.column == e.point.column && s.point.line != e.point.line
    && s.side == Right && e.side == Left
  }

  /** For anchors inside the grid, a Block displays its rectangle; the pinched column displays nothing. */
  lemma BlockRangeExact(v: View, d: Dimensions, p: Point)
    requires d.Valid() && v.ty.Block? && v.InGrid(d)
    ensures Shows(v, d, p) <==> CoversBlock(v, p) && !PinchedColumn(v)
  {
    ClampIsAProjection(v.Upper().point, v.Lower().point, d, Boundary.Grid);
    ClampIsAProjection(v.Lower().point, v.Upper().point, d, Boundary.Grid);
  }

  // ------------------------------------------------------------------------------------------
  // Including all cells
  // ------------------------------------------------------------------------------------------

  function WithAllCells(v: View): View {
    var s, e := v.start.point, v.end.point;
    var (startSide, endSide) :=
      if v.ty.Block? then
        if s.column > e.column || (s.column == e.column && s.line > e.line) then (Right, Left) else (Left, Right)
      else if Less(e, s) then (Right, Left) else (Left, Right);
    View(v.ty, Anchor(s, startSide), Anchor(e, endSide))
  }

  /** Only the sides change. */
  lemma WideningKeepsPoints(v: View)
    ensures var w := WithAllCells(v);
            w.ty == v.ty && w.start.point == v.start.point && w.end.point == v.end.point
  {
  }

  /** After including all cells, a selection displays every cell from one end to the other: all cells
      between the two points, or the whole rectangle they span, however the drag went. */
  lemma AllCellsDisplayed(v: View, d: Dimensions, p: Point)
    requires d.Valid() && v.InGrid(d) && d.InGrid(p) && (v.ty.Simple? || v.ty.Block?)
    ensures Shows(WithAllCells(v), d, p) <==>
      var a, b := v.start.point, v.end.point;
      if v.ty.Simple? then
        (AtMost(a, p) && AtMost(p, b)) || (AtMost(b, p) && AtMost(p, a))
      else
        && Min(a.line, b.line) <= p.line <= Max(a.line, b.line)
        && Min(a.column, b.column) <= p.column <= Max(a.column, b.column)
  {
    var w := WithAllCells(v);
    if v.ty.Simple? {
      SimpleRangeExact(w, d, p);
      PosOrder(v.start.point, p, d.columns);
      PosOrder(p, v.start.point, d.columns);
      PosOrder(v.end.point, p, d.columns);
      PosOrder(p, v.end.point, d.columns);
      PosOrder(v.start.point, v.end.point, d.columns);
    } else {
      BlockRangeExact(w, d, p);
    }
  }

  // ------------------------------------------------------------------------------------------
  // Rotation
  // ------------------------------------------------------------------------------------------

  /** Anchors on the lines of region [top, bottom) move; a region that starts at line 0 takes those in the history
      along. */
  predicate Moves(line: int, top: int, bottom: int) {
    (line >= top || top == 0) && line < bottom
  }

  function RotateUpper(upper: Anchor, lower: Anchor, block: bool, d: Dimensions, top: int, bottom: int, delta: int)
    : Option<Anchor>
  {
    if !Moves(upper.point.line, top, bottom) then Some(upper)
    else
      var line := Min(upper.point.line - delta, d.Bottommost());
      if line >= bottom && lower.point.line < bottom then None
      else if line < top && top != 0 then
        Some(if block then upper.AtLine(top) else Anchor(Point(top, 0), Left))
      else Some(upper.AtLine(line))
  }

  function RotateLower(upper: Anchor, lower: Anchor, block: bool, d: Dimensions, top: int, bottom: int, delta: int)
    : Option<Anchor>
    requires d.columns >= 1
  {
    if !Moves(lower.point.line, top, bottom) then Some(lower)
    else
      var line := Min(lower.point.line - delta, d.Bottommost());
      if line < upper.point.line then None
      else if line >= bottom then
        Some(if block then lower.AtLine(bottom - 1) else Anchor(Point(bottom - 1, d.LastColumn()), Right))
      else Some(lower.AtLine(line))
  }

  /** The selection after lines [top, bottom) have moved up by `delta`; None when it is dropped. */
  function Rotated(v: View, d: Dimensions, top: int, bottom: int, delta: int): Option<View>
    requires d.columns >= 1
  {
    var upper := RotateUpper(v.Upper(), v.Lower(), v.ty.Block?, d, top, bottom, delta);
    if upper.None? then None
    else
      var lower := RotateLower(upper.value, v.Lower(), v.ty.Block?, d, top, bottom, delta);
      if lower.None? then None else Some(v.WithOrdered(upper.value, lower.value))
  }

  /** Where rotation puts one of the two anchors; `first` if it does not come after the other one. */
  predicate RotatedTo(a: Anchor, r: Anchor, first: bool, block: bool, d: Dimensions, top: int, bottom: int, delta: int)
    requires d.columns >= 1
  {
    var line, column := Min(a.point.line - delta, d.screenLines - 1), a.point.column;
    if (a.point.line < top && top != 0) || a.point.line >= bottom then r == a
    else if first && line < top && top != 0 then
      r == if block then Anchor(Point(top, column), a.side) else Anchor(Point(top, 0), Left)
    else if !first && line >= bottom then
      r == if block then Anchor(Point(bottom - 1, column), a.side) else Anchor(Point(bottom - 1, d.columns - 1), Right)
    else r == Anchor(Point(line, column), a.side)
  }

  /** Each anchor is moved in its own place: the one the drag began with stays the one it began with, for drags in both
      directions and of every type. */
  lemma RotationKeepsEnds(v: View, d: Dimensions, top: int, bottom: int, delta: int)
    requires d.columns >= 1
    ensures var r := Rotated(v, d, top, bottom, delta);
            var s, e := v.start.point, v.end.point;
            var startFirst := s.line < e.line || (s.line == e.line && s.column <= e.column);
            r.Some? ==>
              && r.value.ty == v.ty
              && RotatedTo(v.start, r.value.start, startFirst, v.ty.Block?, d, top, bottom, delta)
              && RotatedTo(v.end, r.value.end, !startFirst, v.ty.Block?, d, top, bottom, delta)
  {
  }

  /** A selection is dropped exactly if its first anchor leaves the region at the bottom with the second one in it or
      above, or the second one ends up above the first. */
  lemma RotationDropsExactly(v: View, d: Dimensions, top: int, bottom: int, delta: int)
    requires d.columns >= 1
    ensures var s, e := v.start.point, v.end.point;
            var startFirst := s.line < e.line || (s.line == e.line && s.column <= e.column);
            var a, b := if startFirst then s.line else e.line, if startFirst then e.line else s.line;
            var a', b' := Min(a - delta, d.screenLines - 1), Min(b - delta, d.screenLines - 1);
            var first := if !Moves(a, top, bottom) then a else if top != 0 then Max(top, a') else a';
            Rotated(v, d, top, bottom, delta).None? <==>
              || (Moves(a, top, bottom) && a' >= bottom && b < bottom)
              || (Moves(b, top, bottom) && b' < first)
  {
  }

  /** An anchor that does not leave the region or the screen moves by the scrolled lines and keeps column and side. */
  lemma UnclampedAnchorsMove(v: View, d: Dimensions, top: int, bottom: int, delta: int)
    requires d.columns >= 1 && Rotated(v, d, top, bottom, delta).Some?
    ensures var r := Rotated(v, d, top, bottom, delta).value;
            && (!Moves(v.start.point.line, top, bottom) ==> r.start == v.start)
            && (!Moves(v.end.point.line, top, bottom) ==> r.end == v.end)
            && (Moves(v.start.point.line, top, bottom) && Moves(v.start.point.line - delta, top, bottom)
                && v.start.point.line - delta < d.screenLines ==>
                  r.start == Anchor(Point(v.start.point.line - delta, v.start.point.column), v.start.side))
            && (Moves(v.end.point.line, top, bottom) && Moves(v.end.point.line - delta, top, bottom)
                && v.end.point.line - delta < d.screenLines ==>
                  r.end == Anchor(Point(v.end.point.line - delta, v.end.point.column), v.end.side))
  {
    RotationKeepsEnds(v, d, top, bottom, delta);
  }

  /** An upward drag, scrolled: its start is still the lower end. */
  lemma UpwardDragKeepsItsStart()
    ensures var d := Dimensions(10, 10, 5);
            var v := View(Simple, Anchor(Point(5, 3), Right), Anchor(Point(2, 1), Left));
            Rotated(v, d, 0, 10, 1) == Some(View(Simple, Anchor(Point(4, 3), Right), Anchor(Point(1, 1), Left)))
  {
  }

  /** Semantic and line selections rotate and widen like a Simple one with the same anchors, and never test empty. */
  lemma OtherTypesMoveLikeSimple(v: View, d: Dimensions, top: int, bottom: int, delta: int)
    requires d.columns >= 1 && (v.ty.Semantic? || v.ty.Lines?)
    ensures var simple := View(Simple, v.start, v.end);
            var r, q := Rotated(v, d, top, bottom, delta), Rotated(simple, d, top, bottom, delta);
            && (r.None? <==> q.None?)
            && (r.Some? ==> r.value == View(v.ty, q.value.start, q.value.end))
            && WithAllCells(v) == View(v.ty, WithAllCells(simple).start, WithAllCells(simple).end)
    ensures !IsEmpty(v)
  {
  }

  /** The cells that exist after the move and belong to the region. */
  predicate Survives(x: int, d: Dimensions, top: int, bottom: int) {
    && (top == 0 || top * d.columns <= x)
    && x < Min(bottom, d.Bottommost() + 1) * d.columns
  }

  /** The rotated selection means the old cells that are still there, moved along with everything in the region. */
  ghost predicate FollowsAt(v: View, d: Dimensions, top: int, bottom: int, delta: int, x: int)
    requires d.Valid()
  {
    var r := Rotated(v, d, top, bottom, delta);
    (r.Some? && Covers(r.value, d.columns, x))
    <==> (Covers(v, d.columns, x + delta * d.columns) && Survives(x, d, top, bottom))
  }

  /** When rotation follows the content.  An anchor pushed below the screen is clamped to the last row
      in its own column before the region's end is looked at, so a region that reaches the last row
      never notices that the anchor left it; the result is then right only when the columns happen to
      fit. */
  predicate FollowsContent(v: View, d: Dimensions, top: int, bottom: int, delta: int)
    requires d.Valid()
  {
    var s, e := v.Upper(), v.Lower();
    || bottom <= d.Bottommost()
    || e.point.line - delta <= d.Bottommost()
    || (top != 0 && top > d.Bottommost())
    || (s.point.line - delta <= d.Bottommost() && e.side == Right && e.point.column == d.LastColumn())
    || (s.point.line - delta > d.Bottommost() && s.ColumnEdge() == e.ColumnEdge())
  }

  lemma EdgeAtLine(a: Anchor, line: int, delta: int, columns: nat)
    requires line == a.point.line - delta
    ensures a.AtLine(line).Edge(columns) == a.Edge(columns) - delta * columns
  {
    Distribute(a.point.line, -delta, columns);
    Distribute(0, delta, columns);
  }

  /** Where an edge lies relative to the rows. */
  lemma EdgeByLine(a: Anchor, line: int, columns: nat)
    requires a.point.column < columns
    ensures a.point.line < line ==> a.Edge(columns) <= line * columns
    ensures a.point.line >= line ==> a.Edge(columns) >= line * columns
    ensures a.point.line == line ==> a.Edge(columns) == line * columns + a.ColumnEdge()
  {
    if a.point.line < line {
      LineGap(a.point.line, line, columns);
    } else if line < a.point.line {
      LineGap(line, a.point.line, columns);
    }
  }

  /** What happens to the upper edge when the anchor is not clamped to the last row by mistake. */
  lemma UpperEdgeMoves(s: Anchor, e: Anchor, d: Dimensions, top: int, bottom: int, delta: int)
    requires d.Valid() && s.point.column < d.columns && e.point.column < d.columns
    requires Moves(s.point.line, top, bottom) && e.point.line < bottom
    requires s.point.line - delta <= d.Bottommost() || bottom <= d.Bottommost()
    ensures var r := RotateUpper(s, e, false, d, top, bottom, delta);
            var moved := s.Edge(d.columns) - delta * d.columns;
            && (r.None? <==> s.point.line - delta >= bottom)
            && (r.None? ==> moved >= bottom * d.columns)
            && (r.Some? ==>
                  && r.value.point.column < d.columns && r.value.point.line < bottom
                  && r.value.Edge(d.columns) == (if top == 0 then moved else Max(top * d.columns, moved))
                  && (s.point.line - delta >= top || top == 0 ==> r.value == s.AtLine(s.point.line - delta))
                  && (s.point.line - delta < top && top != 0 ==> r.value == Anchor(Point(top, 0), Left)))
  {
    var s1 := s.AtLine(s.point.line - delta);
    EdgeAtLine(s, s.point.line - delta, delta, d.columns);
    EdgeByLine(s1, top, d.columns);
    EdgeByLine(s1, bottom, d.columns);
  }

  lemma LowerEdgeMoves(s: Anchor, e: Anchor, d: Dimensions, top: int, bottom: int, delta: int)
    requires d.Valid() && s.point.column < d.columns && e.point.column < d.columns
    requires Moves(e.point.line, top, bottom) && s.point.line < bottom
    requires e.point.line - delta <= d.Bottommost() || bottom <= d.Bottommost()
    ensures var r := RotateLower(s, e, false, d, top, bottom, delta);
            var moved := e.Edge(d.columns) - delta * d.columns;
            && (r.None? <==> e.point.line - delta < s.point.line)
            && (r.None? ==> moved <= s.point.line * d.columns)
            && (r.Some? ==>
                  && r.value.point.column < d.columns
                  && r.value.Edge(d.columns) == Min(Min(bottom, d.Bottommost() + 1) * d.columns, moved))
  {
    var c := d.columns;
    var e1 := e.AtLine(e.point.line - delta);
    EdgeAtLine(e, e.point.line - delta, delta, c);
    EdgeByLine(e1, s.point.line, c);
    EdgeByLine(e1, bottom, c);
    EdgeByLine(e1, d.Bottommost() + 1, c);
    Distribute(bottom, -1, c);
  }

  lemma OrderedCovers(v: View, upper: Anchor, lower: Anchor, columns: nat, x: int)
    ensures Covers(v.WithOrdered(upper, lower), columns, x)
       <==> Min(upper.Edge(columns), lower.Edge(columns)) <= x < Max(upper.Edge(columns), lower.Edge(columns))
    ensures Covers(v, columns, x)
       <==> Min(v.Upper().Edge(columns), v.Lower().Edge(columns)) <= x
          < Max(v.Upper().Edge(columns), v.Lower().Edge(columns))
  {
  }

  /** Rows below the region's effective end, and the rows of the moved anchors, in cell numbers. */
  lemma MovedAnchor(a: Anchor, d: Dimensions, top: int, bottom: int, delta: int)
    requires d.Valid() && a.point.column < d.columns
    ensures var edge := a.Edge(d.columns) - delta * d.columns;
            && (a.point.line - delta < top ==> edge <= top * d.columns)
            && (a.point.line - delta >= top ==> edge >= top * d.columns)
            && (a.point.line - delta < Min(bottom, d.Bottommost() + 1) ==>
                  edge <= Min(bottom, d.Bottommost() + 1) * d.columns)
            && (a.point.line - delta >= Min(bottom, d.Bottommost() + 1) ==>
                  edge >= Min(bottom, d.Bottommost() + 1) * d.columns)
  {
    var a1 := a.AtLine(a.point.line - delta);
    EdgeAtLine(a, a.point.line - delta, delta, d.columns);
    EdgeByLine(a1, top, d.columns);
    EdgeByLine(a1, Min(bottom, d.Bottommost() + 1), d.columns);
  }

  /** No anchor is clamped to the last row by mistake. */
  lemma RotationWithoutClamp(v: View, d: Dimensions, top: int, bottom: int, delta: int, x: int)
    requires d.Valid() && v.ty.Simple? && v.ValidColumns(d)
    requires Moves(v.start.point.line, top, bottom) && Moves(v.end.point.line, top, bottom)
    requires v.Lower().point.line - delta <= d.Bottommost() || bottom <= d.Bottommost()
    ensures FollowsAt(v, d, top, bottom, delta, x)
  {
    hide RotateUpper, RotateLower, Pos;
    var c := d.columns;
    var s, e := v.Upper(), v.Lower();
    var upper := RotateUpper(s, e, false, d, top, bottom, delta);
    UpperEdgeMoves(s, e, d, top, bottom, delta);
    MovedAnchor(s, d, top, bottom, delta);
    MovedAnchor(e, d, top, bottom, delta);
    OrderedCovers(v, s, e, c, x + delta * c);
    if upper.Some? {
      var lower := RotateLower(upper.value, e, false, d, top, bottom, delta);
      LowerEdgeMoves(upper.value, e, d, top, bottom, delta);
      if lower.Some? {
        OrderedCovers(v, upper.value, lower.value, c, x);
        assert Rotated(v, d, top, bottom, delta) == Some(v.WithOrdered(upper.value, lower.value));
        ClippedInterval(s.Edge(c) - delta * c, e.Edge(c) - delta * c, top == 0, top * c,
                        Min(bottom, d.Bottommost() + 1) * c, x);
      }
    }
  }

  /** Clipping both ends of an interval that overlaps the clip is intersecting with it. */
  lemma ClippedInterval(s: int, e: int, open: bool, t: int, b: int, x: int)
    requires open || t <= e
    requires !open && s < t ==> t <= b
    requires open || s >= t ==> s <= b
    ensures var s1 := if open then s else Max(t, s);
            var e1 := Min(b, e);
            (Min(s1, e1) <= x < Max(s1, e1))
            <==> (Min(s, e) <= x < Max(s, e) && (open || t <= x) && x < b)
  {
  }

  lemma LineGapAtMost(a: int, b: int, columns: nat)
    requires a <= b
    ensures a * columns <= b * columns
  {
    if a < b {
      LineGap(a, b, columns);
    }
  }

  /** The anchors the code arrives at once the lower one is clamped to the last row by mistake. */
  lemma RotatedAfterClamp(v: View, d: Dimensions, top: int, bottom: int, delta: int)
    requires d.Valid() && v.ty.Simple? && v.ValidColumns(d)
    requires Moves(v.start.point.line, top, bottom) && Moves(v.end.point.line, top, bottom)
    requires v.Lower().point.line - delta > d.Bottommost() && bottom > d.Bottommost()
    ensures Rotated(v, d, top, bottom, delta) ==
            if top != 0 && top > d.Bottommost() then None
            else Some(v.WithOrdered(UpperAfterClamp(v, d, top, delta), v.Lower().AtLine(d.Bottommost())))
  {
  }

  function UpperAfterClamp(v: View, d: Dimensions, top: int, delta: int): Anchor {
    var s := v.Upper();
    if s.point.line - delta > d.Bottommost() then s.AtLine(d.Bottommost())
    else if top == 0 || s.point.line - delta >= top then s.AtLine(s.point.line - delta)
    else Anchor(Point(top, 0), Left)
  }

  lemma UpperAfterClampEdge(v: View, d: Dimensions, top: int, delta: int)
    requires d.Valid() && v.ValidColumns(d)
    ensures var s := v.Upper();
            UpperAfterClamp(v, d, top, delta).Edge(d.columns) ==
            if s.point.line - delta > d.Bottommost() then d.Bottommost() * d.columns + s.ColumnEdge()
            else if top == 0 then s.Edge(d.columns) - delta * d.columns
            else Max(top * d.columns, s.Edge(d.columns) - delta * d.columns)
  {
    var s, c := v.Upper(), d.columns;
    if s.point.line - delta > d.Bottommost() {
      EdgeByLine(s.AtLine(d.Bottommost()), d.Bottommost(), c);
    } else {
      EdgeAtLine(s, s.point.line - delta, delta, c);
      MovedAnchor(s, d, top, top, delta);
    }
  }

  /** What the code does once the lower anchor is clamped to the last row by mistake. */
  lemma RotationAfterClamp(v: View, d: Dimensions, top: int, bottom: int, delta: int, x: int)
    requires d.Valid() && v.ty.Simple? && v.ValidColumns(d)
    requires Moves(v.start.point.line, top, bottom) && Moves(v.end.point.line, top, bottom)
    requires v.Lower().point.line - delta > d.Bottommost() && bottom > d.Bottommost()
    ensures var r := Rotated(v, d, top, bottom, delta);
            var s, e := v.Upper(), v.Lower();
            var last := d.Bottommost() * d.columns;
            if top != 0 && top > d.Bottommost() then r.None?
            else
              var edge := if s.point.line - delta > d.Bottommost() then last + s.ColumnEdge()
                          else if top == 0 then s.Edge(d.columns) - delta * d.columns
                          else Max(top * d.columns, s.Edge(d.columns) - delta * d.columns);
              && r.Some?
              && (Covers(r.value, d.columns, x)
                  <==> Min(edge, last + e.ColumnEdge()) <= x < Max(edge, last + e.ColumnEdge()))
  {
    hide Rotated, Covers, Pos, UpperAfterClamp;
    RotatedAfterClamp(v, d, top, bottom, delta);
    if !(top != 0 && top > d.Bottommost()) {
      var upper, lower := UpperAfterClamp(v, d, top, delta), v.Lower().AtLine(d.Bottommost());
      UpperAfterClampEdge(v, d, top, delta);
      EdgeByLine(lower, d.Bottommost(), d.columns);
      OrderedCovers(v, upper, lower, d.columns, x);
    }
  }

  /** What the content did in the same situation: everything from the upper edge down survives. */
  lemma ContentAfterClamp(v: View, d: Dimensions, top: int, bottom: int, delta: int, x: int)
    requires d.Valid() && v.ty.Simple? && v.ValidColumns(d)
    requires Moves(v.start.point.line, top, bottom) && Moves(v.end.point.line, top, bottom)
    requires v.Lower().point.line - delta > d.Bottommost() && bottom > d.Bottommost()
    ensures (Covers(v, d.columns, x + delta * d.columns) && Survives(x, d, top, bottom))
       <==> (&& v.Upper().point.line - delta <= d.Bottommost()
             && v.Upper().Edge(d.columns) - delta * d.columns <= x < d.Beyond()
             && (top == 0 || top * d.columns <= x))
  {
    var c := d.columns;
    var s, e := v.Upper(), v.Lower();
    OrderedCovers(v, s, e, c, x + delta * c);
    OrderedEdges(v, c);
    MovedAnchor(s, d, top, bottom, delta);
    MovedAnchor(e, d, top, bottom, delta);
  }

  /** Rotation follows the content whenever the condition holds. */
  lemma RotationIsSound(v: View, d: Dimensions, top: int, bottom: int, delta: int, x: int)
    requires d.Valid() && v.ty.Simple? && v.ValidColumns(d)
    requires Moves(v.start.point.line, top, bottom) && Moves(v.end.point.line, top, bottom)
    requires FollowsContent(v, d, top, bottom, delta)
    ensures FollowsAt(v, d, top, bottom, delta, x)
  {
    if v.Lower().point.line - delta <= d.Bottommost() || bottom <= d.Bottommost() {
      RotationWithoutClamp(v, d, top, bottom, delta, x);
    } else {
      RotationAfterClamp(v, d, top, bottom, delta, x);
      ContentAfterClamp(v, d, top, bottom, delta, x);
      ClampRows(v, d, top, bottom, delta);
    }
  }

  lemma ClampRows(v: View, d: Dimensions, top: int, bottom: int, delta: int)
    requires d.Valid() && v.ValidColumns(d)
    ensures d.Beyond() == d.Bottommost() * d.columns + d.columns
    ensures top <= d.Bottommost() ==> top * d.columns < d.Beyond()
    ensures top > d.Bottommost() ==> d.Beyond() <= top * d.columns
    ensures v.Upper().point.line - delta <= d.Bottommost() ==>
              v.Upper().Edge(d.columns) - delta * d.columns <= d.Beyond()
  {
    Distribute(d.Bottommost(), 1, d.columns);
    if top <= d.Bottommost() {
      LineGapAtMost(top, d.Bottommost(), d.columns);
    } else {
      LineGapAtMost(d.Bottommost() + 1, top, d.columns);
    }
    MovedAnchor(v.Upper(), d, 0, d.Bottommost() + 1, delta);
  }

  /** When the condition fails, some cell is covered wrongly after the rotation. */
  lemma RotationIsWrong(v: View, d: Dimensions, top: int, bottom: int, delta: int) returns (x: int)
    requires d.Valid() && v.ty.Simple? && v.ValidColumns(d)
    requires Moves(v.start.point.line, top, bottom) && Moves(v.end.point.line, top, bottom)
    requires !FollowsContent(v, d, top, bottom, delta)
    ensures !FollowsAt(v, d, top, bottom, delta, x) && d.Beyond() - d.columns <= x < d.Beyond()
  {
    var s, e := v.Upper(), v.Lower();
    var last := d.Bottommost() * d.columns;
    x := if s.point.line - delta <= d.Bottommost() then d.Beyond() - 1
         else last + Min(s.ColumnEdge(), e.ColumnEdge());
    RotationAfterClamp(v, d, top, bottom, delta, x);
    ContentAfterClamp(v, d, top, bottom, delta, x);
    ClampRows(v, d, top, bottom, delta);
  }

  ghost predicate BlockFollowsAt(v: View, d: Dimensions, top: int, bottom: int, delta: int, p: Point)
    requires d.Valid()
  {
    var r := Rotated(v, d, top, bottom, delta);
    (r.Some? && CoversBlock(r.value, p))
    <==> (&& CoversBlock(v, Point(p.line + delta, p.column))
          && (top == 0 || top <= p.line) && p.line < Min(bottom, d.Bottommost() + 1))
  }

  /** A Block keeps its columns, so its rows follow the content unless the upper row, too, is pushed
      below the screen from a region that reaches the last row. */
  predicate BlockFollowsContent(v: View, d: Dimensions, top: int, bottom: int, delta: int) {
    || bottom <= d.Bottommost()
    || v.Upper().point.line - delta <= d.Bottommost()
    || (top != 0 && top > d.Bottommost())
    || v.start.ColumnEdge() == v.end.ColumnEdge()
  }

  /** The rows and columns of the rotated block. */
  lemma BlockRotationRows(v: View, d: Dimensions, top: int, bottom: int, delta: int)
    requires d.Valid() && v.ty.Block?
    requires Moves(v.start.point.line, top, bottom) && Moves(v.end.point.line, top, bottom)
    ensures var r := Rotated(v, d, top, bottom, delta);
            var b := d.Bottommost();
            var first, last := Min(v.Upper().point.line - delta, b), Min(v.Lower().point.line - delta, b);
            && (r.None? <==> first >= bottom || (top != 0 && last < top))
            && (r.Some? ==>
                  && Min(r.value.start.ColumnEdge(), r.value.end.ColumnEdge())
                  == Min(v.start.ColumnEdge(), v.end.ColumnEdge())
                  && Max(r.value.start.ColumnEdge(), r.value.end.ColumnEdge())
                  == Max(v.start.ColumnEdge(), v.end.ColumnEdge())
                  && Min(r.value.start.point.line, r.value.end.point.line)
                  == (if top == 0 then first else Max(top, first))
                  && Max(r.value.start.point.line, r.value.end.point.line) == Min(bottom - 1, last))
  {
  }

  lemma BlockRotationIsSound(v: View, d: Dimensions, top: int, bottom: int, delta: int, p: Point)
    requires d.Valid() && v.ty.Block?
    requires Moves(v.start.point.line, top, bottom) && Moves(v.end.point.line, top, bottom)
    requires BlockFollowsContent(v, d, top, bottom, delta)
    ensures BlockFollowsAt(v, d, top, bottom, delta, p)
  {
    BlockRotationRows(v, d, top, bottom, delta);
  }

  lemma BlockRotationIsWrong(v: View, d: Dimensions, top: int, bottom: int, delta: int) returns (p: Point)
    requires d.Valid() && v.ty.Block?
    requires Moves(v.start.point.line, top, bottom) && Moves(v.end.point.line, top, bottom)
    requires !BlockFollowsContent(v, d, top, bottom, delta)
    ensures !BlockFollowsAt(v, d, top, bottom, delta, p)
  {
    BlockRotationRows(v, d, top, bottom, delta);
    p := Point(d.Bottommost(), Min(v.start.ColumnEdge(), v.end.ColumnEdge()));
  }

  // ------------------------------------------------------------------------------------------
  // Where the exact conditions fail
  // ------------------------------------------------------------------------------------------

  /** Ten rows of five cells are scrolled down by five: the selected cell at the end of row 4 moves to the end of
      row 9, where it is still on the screen but no longer selected. */
  lemma ScrollingDownLosesACell()
    ensures var d := Dimensions(10, 10, 5);
            var v := View(Simple, Anchor(Point(4, 1), Left), Anchor(Point(7, 3), Right));
            var r := Rotated(v, d, 0, 10, -5);
            && !FollowsContent(v, d, 0, 10, -5)
            && Shows(v, d, Point(4, 4)) && r.Some? && !Shows(r.value, d, Point(9, 4))
  {
    var d := Dimensions(10, 10, 5);
    var v := View(Simple, Anchor(Point(4, 1), Left), Anchor(Point(7, 3), Right));
    var moved := View(Simple, Anchor(Point(9, 1), Left), Anchor(Point(9, 3), Right));
    assert Rotated(v, d, 0, 10, -5) == Some(moved);
    SimpleRangeExact(v, d, Point(4, 4));
    SimpleRangeExact(moved, d, Point(9, 4));
  }

  /** The right half of a row's last cell to the left half of the next row's first cell: no cell is between, and
      one is displayed. */
  lemma RowBreakDisplaysACell()
    ensures var d := Dimensions(10, 10, 5);
            var v := View(Simple, Anchor(Point(0, 4), Right), Anchor(Point(1, 0), Left));
            && !DrawnExactly(v, d) && Shows(v, d, Point(0, 4)) && forall x :: !Covers(v, d.columns, x)
  {
    var d := Dimensions(10, 10, 5);
    var v := View(Simple, Anchor(Point(0, 4), Right), Anchor(Point(1, 0), Left));
    assert ToRange(v, d) == Some(SelectionRange(Point(0, 4), Point(0, 4), false));
  }

  // ------------------------------------------------------------------------------------------
  // The object
  // ------------------------------------------------------------------------------------------

  class Selection {
    const ty: SelectionType
    var start: Anchor
    var end: Anchor

    ghost function AsView(): View
      reads this
    {
      View(ty, start, end)
    }

    constructor (ty: SelectionType, location: Point, side: Side)
      ensures AsView() == View(ty, Anchor(location, side), Anchor(location, side))
    {
      this.ty := ty;
      start := Anchor(location, side);
      end := Anchor(location, side);
    }

    /** Moves the end that is being dragged. */
    method Update(point: Point, side: Side)
      modifies this`end
      ensures end == Anchor(point, side)
    {
      end := Anchor(point, side);
    }

    method IncludeAll()
      modifies this`start, this`end
      ensures AsView() == WithAllCells(old(AsView()))
    {
      var startSide, endSide := Left, Right;
      match ty {
        case Block =>
          if start.point.column > end.point.column
             || (start.point.column == end.point.column && start.point.line > end.point.line) {
            startSide, endSide := Right, Left;
          }
        case _ =>
          if Less(end.point, start.point) {
            startSide, endSide := Right, Left;
          }
      }
      start := start.(side := startSide);
      end := end.(side := endSide);
    }

    /** Follows the content as lines [top, bottom) move up by `delta`; false when nothing is left. */
    method Rotate(d: Dimensions, top: int, bottom: int, delta: int) returns (kept: bool)
      requires d.columns >= 1
      modifies this`start, this`end
      ensures kept <==> Rotated(old(AsView()), d, top, bottom, delta).Some?
      ensures kept ==> AsView() == Rotated(old(AsView()), d, top, bottom, delta).value
    {
      var upper, lower := start, end;
      var swapped := Less(end.point, start.point);
      if swapped {
        upper, lower := lower, upper;
      }
      var movedUpper := RotateStart(upper, lower, d, top, bottom, delta);
      if movedUpper.None? {
        return false;
      }
      var movedLower := RotateEnd(movedUpper.value, lower, d, top, bottom, delta);
      if movedLower.None? {
        return false;
      }
      if swapped {
        start, end := movedLower.value, movedUpper.value;
      } else {
        start, end := movedUpper.value, movedLower.value;
      }
      return true;
    }

    method RotateStart(upper: Anchor, lower: Anchor, d: Dimensions, top: int, bottom: int, delta: int)
      returns (moved: Option<Anchor>)
      ensures moved == RotateUpper(upper, lower, ty.Block?, d, top, bottom, delta)
    {
      var a := upper;
      if (a.point.line >= top || top == 0) && a.point.line < bottom {
        a := a.AtLine(Min(a.point.line - delta, d.Bottommost()));
        if a.point.line >= bottom && lower.point.line < bottom {
          return None;
        }
        if a.point.line < top && top != 0 {
          if ty != Block {
            a := Anchor(Point(a.point.line, 0), Left);
          }
          a := a.AtLine(top);
        }
      }
      return Some(a);
    }

    method RotateEnd(upper: Anchor, lower: Anchor, d: Dimensions, top: int, bottom: int, delta: int)
      returns (moved: Option<Anchor>)
      requires d.columns >= 1
      ensures moved == RotateLower(upper, lower, ty.Block?, d, top, bottom, delta)
    {
      var a := lower;
      if (a.point.line >= top || top == 0) && a.point.line < bottom {
        a := a.AtLine(Min(a.point.line - delta, d.Bottommost()));
        if a.point.line < upper.point.line {
          return None;
        }
        if a.point.line >= bottom {
          if ty != Block {
            a := Anchor(Point(a.point.line, d.LastColumn()), Right);
          }
          a := a.AtLine(bottom - 1);
        }
      }
      return Some(a);
    }
  }
}
