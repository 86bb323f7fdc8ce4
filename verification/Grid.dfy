/** Grid coordinates: points, boundaries and column arithmetic.

    A point with a valid column stands for one cell of an unbounded strip of cells; `Pos` numbers
    them row by row.  Every operation on points is specified by what it does to that number. */
module Grid {
  datatype Side = Left | Right {
    function Opposite(): Side {
      if this == Left then Right else Left
    }
  }

  datatype Boundary = Cursor | Grid | Unbounded

  datatype Point = Point(line: int, column: nat)

  /** The three sizes every grid-like object reports; lines above 0 are scrollback history. */
  datatype Dimensions = Dimensions(totalLines: nat, screenLines: nat, columns: nat) {
    ghost predicate Valid() {
      1 <= screenLines <= totalLines && 1 <= columns
    }

    function HistorySize(): nat {
      if totalLines >= screenLines then totalLines - screenLines else 0
    }

    function Topmost(): int { 0 - HistorySize() }

    function Bottommost(): int { screenLines - 1 }

    function LastColumn(): nat
      requires columns >= 1
    {
      columns - 1
    }

    /** The cells of the grid are those numbered First() <= x < Beyond(). */
    function First(): int { Topmost() * columns }

    function Beyond(): int { (Bottommost() + 1) * columns }

    predicate InGrid(p: Point) {
      Topmost() <= p.line <= Bottommost() && p.column < columns
    }
  }

  // ------------------------------------------------------------------------------------------
  // Order and numbering
  // ------------------------------------------------------------------------------------------

  /** Line first, then column. */
  predicate Less(p: Point, q: Point) {
    p.line < q.line || (p.line == q.line && p.column < q.column)
  }

  predicate AtMost(p: Point, q: Point) {
    Less(p, q) || p == q
  }

  function Pos(p: Point, columns: nat): int {
    p.line * columns + p.column
  }

  /** The numbering is an order embedding of the points with a valid column. */
  lemma PosOrder(p: Point, q: Point, columns: nat)
    requires p.column < columns && q.column < columns
    ensures Less(p, q) <==> Pos(p, columns) < Pos(q, columns)
    ensures p == q <==> Pos(p, columns) == Pos(q, columns)
  {
    if p.line < q.line {
      LineGap(p.line, q.line, columns);
    } else if q.line < p.line {
      LineGap(q.line, p.line, columns);
    }
  }

  lemma LineGap(a: int, b: int, columns: nat)
    requires a < b
    ensures a * columns + columns <= b * columns
  {
    assert (b - a) * columns >= columns by {
      assert (b - a - 1) * columns >= 0;
    }
  }

  /** A point is determined by its number. */
  lemma PosUnique(line: int, column: int, columns: nat, x: int)
    requires 0 <= column < columns
    requires x == line * columns + column
    ensures line == x / columns && column == x % columns
  {
    var q, r := x / columns, x % columns;
    assert x == q * columns + r && 0 <= r < columns;
    if line < q {
      LineGap(line, q, columns);
    } else if q < line {
      LineGap(q, line, columns);
    }
  }

  /** Membership in the grid is membership of the number in one interval. */
  lemma InGridByPos(d: Dimensions, p: Point)
    requires d.Valid() && p.column < d.columns
    ensures d.InGrid(p) <==> d.First() <= Pos(p, d.columns) < d.Beyond()
    ensures p.line < d.Topmost() <==> Pos(p, d.columns) < d.First()
    ensures d.Bottommost() < p.line <==> d.Beyond() <= Pos(p, d.columns)
    ensures d.First() < d.Beyond()
  {
    PosOrder(p, Point(d.Topmost(), 0), d.columns);
    PosOrder(p, Point(d.Bottommost() + 1, 0), d.columns);
    LineGap(d.Topmost(), d.Bottommost() + 1, d.columns);
  }

  // ------------------------------------------------------------------------------------------
  // Operations
  // ------------------------------------------------------------------------------------------

  /** The remainder of a division that truncates toward zero. */
  function TruncMod(a: int, b: nat): int
    requires b > 0
  {
    if a >= 0 then a % b else -((-a) % b)
  }

  function ClampLine(line: int, d: Dimensions, boundary: Boundary): int
    requires d.Valid()
  {
    match boundary
    case Cursor => Max(0, Min(d.Bottommost(), line))
    case Grid => Max(d.Topmost(), Min(d.Bottommost(), line))
    case Unbounded =>
      if line >= d.screenLines then
        d.Topmost() + TruncMod(line - d.screenLines, d.totalLines)
      else
        d.Bottommost() + TruncMod(line - d.screenLines + 1, d.totalLines)
  }

  /** Clamping a line to the viewport or the grid gives its nearest line; a line that is there stays. */
  lemma ClampLineIsNearest(line: int, d: Dimensions, boundary: Boundary, other: int)
    requires d.Valid() && !boundary.Unbounded?
    ensures var top := if boundary.Cursor? then 0 else d.screenLines - d.totalLines;
            var r := ClampLine(line, d, boundary);
            && top <= r < d.screenLines
            && (top <= line < d.screenLines ==> r == line)
            && (top <= other < d.screenLines ==> Apart(r, line) <= Apart(other, line))
  {
  }

  function Apart(a: int, b: int): nat {
    if a <= b then b - a else a - b
  }

  function Clamp(p: Point, d: Dimensions, boundary: Boundary): Point
    requires d.Valid()
  {
    var q := Point(p.line, Min(p.column, d.LastColumn()));
    if boundary.Cursor? && q.line < 0 then
      Point(0, 0)
    else if boundary.Grid? && q.line < d.Topmost() then
      Point(d.Topmost(), 0)
    else if !boundary.Unbounded? && q.line > d.Bottommost() then
      Point(d.Bottommost(), d.LastColumn())
    else if boundary.Unbounded? then
      Point(ClampLine(q.line, d, boundary), q.column)
    else
      q
  }

  function Add(p: Point, d: Dimensions, boundary: Boundary, rhs: nat): Point
    requires d.Valid()
  {
    Clamp(Point(p.line + (rhs + p.column) / d.columns, (p.column + rhs) % d.columns), d, boundary)
  }

  /** The subtraction of columns saturates at 0 before the division. */
  function Sub(p: Point, d: Dimensions, boundary: Boundary, rhs: nat): Point
    requires d.Valid() && p.column < d.columns
  {
    var lineChanges := Max(0, rhs + d.columns - 1 - p.column) / d.columns;
    Clamp(Point(p.line - lineChanges, (d.columns + p.column - rhs % d.columns) % d.columns), d, boundary)
  }

  function Min(a: int, b: int): int { if a <= b then a else b }

  function Max(a: int, b: int): int { if a <= b then b else a }

  // ------------------------------------------------------------------------------------------
  // What the operations do to the number of a cell
  // ------------------------------------------------------------------------------------------

  /** What clamping means on cell numbers: saturate for Cursor and Grid, wrap around otherwise. */
  function Settle(x: int, d: Dimensions, boundary: Boundary): int
    requires d.Valid()
  {
    match boundary
    case Cursor => Max(0, Min(d.Beyond() - 1, x))
    case Grid => Max(d.First(), Min(d.Beyond() - 1, x))
    case Unbounded => d.First() + (x - d.First()) % (d.totalLines * d.columns)
  }

  lemma ModShift(a: int, k: int, n: nat)
    requires n > 0
    ensures (a + k * n) % n == a % n
  {
    var q, r := a / n, a % n;
    PosUnique(q + k, r, n, a + k * n);
  }

  /** The unbounded line clamp is one modular reduction into [topmost, bottommost]. */
  lemma ClampLineWraps(line: int, d: Dimensions)
    requires d.Valid()
    ensures ClampLine(line, d, Unbounded) == d.Topmost() + (line - d.Topmost()) % d.totalLines
  {
    var n := d.totalLines;
    if line >= d.screenLines {
      ModShift(line - d.screenLines, 1, n);
    } else {
      var a := d.screenLines - 1 - line;
      var q, r := a / n, a % n;
      assert line - d.Topmost() == (-q) * n + (n - 1 - r);
      PosUnique(-q, n - 1 - r, n, line - d.Topmost());
    }
  }

  /** Wrapping the line and keeping the column is wrapping the number. */
  lemma WrapPos(line: int, column: int, d: Dimensions)
    requires d.Valid() && 0 <= column < d.columns
    ensures (line % d.totalLines) * d.columns + column
         == (line * d.columns + column) % (d.totalLines * d.columns)
  {
    var c, n := d.columns, d.totalLines;
    var q, r := line / n, line % n;
    var x := line * c + column;
    assert x == q * (n * c) + (r * c + column) by {
      assert line * c == (q * n + r) * c == q * (n * c) + r * c;
    }
    LineGap(r, n, c);
    assert 0 <= r * c;
    assert n * c > 0 by { LineGap(0, n, c); }
    PosUnique(q, r * c + column, n * c, x);
  }

  lemma ClampSettles(p: Point, d: Dimensions, boundary: Boundary)
    requires d.Valid() && p.column < d.columns
    ensures Clamp(p, d, boundary).column < d.columns
    ensures Pos(Clamp(p, d, boundary), d.columns) == Settle(Pos(p, d.columns), d, boundary)
  {
    match boundary
    case Cursor => ClampSettlesCursor(p, d);
    case Grid => InGridByPos(d, p);
    case Unbounded => ClampSettlesUnbounded(p, d);
  }

  lemma ClampSettlesCursor(p: Point, d: Dimensions)
    requires d.Valid() && p.column < d.columns
    ensures Pos(Clamp(p, d, Cursor), d.columns) == Settle(Pos(p, d.columns), d, Cursor)
  {
    InGridByPos(d, p);
    InGridByPos(d, Point(0, 0));
    PosOrder(p, Point(0, 0), d.columns);
  }

  lemma ClampSettlesUnbounded(p: Point, d: Dimensions)
    requires d.Valid() && p.column < d.columns
    ensures Pos(Clamp(p, d, Unbounded), d.columns) == Settle(Pos(p, d.columns), d, Unbounded)
  {
    var t, c := d.Topmost(), d.columns;
    var wrapped := (p.line - t) % d.totalLines;
    ClampLineWraps(p.line, d);
    WrapPos(p.line - t, p.column, d);
    Distribute(t, wrapped, c);
    Distribute(p.line, -t, c);
  }

  lemma Distribute(a: int, b: int, c: int)
    ensures (a + b) * c == a * c + b * c
    ensures (-b) * c == -(b * c)
  {
  }

  /** Adding columns adds to the cell number, and then only the boundary rule acts. */
  lemma AddIsLinear(p: Point, d: Dimensions, boundary: Boundary, rhs: nat)
    requires d.Valid() && p.column < d.columns
    ensures Add(p, d, boundary, rhs).column < d.columns
    ensures Pos(Add(p, d, boundary, rhs), d.columns) == Settle(Pos(p, d.columns) + rhs, d, boundary)
  {
    var c := d.columns;
    var q, r := (rhs + p.column) / c, (rhs + p.column) % c;
    assert (p.line + q) * c + r == Pos(p, c) + rhs by {
      assert (p.line + q) * c == p.line * c + q * c;
    }
    ClampSettles(Point(p.line + q, r), d, boundary);
  }

  /** Subtracting columns subtracts from the cell number, and then only the boundary rule acts. */
  lemma SubIsLinear(p: Point, d: Dimensions, boundary: Boundary, rhs: nat)
    requires d.Valid() && p.column < d.columns
    ensures Sub(p, d, boundary, rhs).column < d.columns
    ensures Pos(Sub(p, d, boundary, rhs), d.columns) == Settle(Pos(p, d.columns) - rhs, d, boundary)
  {
    var c := d.columns;
    var up := (rhs + c - 1 - p.column) / c;
    var col := (c + p.column - rhs % c) % c;
    assert -up * c + col == p.column - rhs by {
      SubSteps(p.column, rhs, c);
    }
    assert (p.line - up) * c + col == Pos(p, c) - rhs by {
      assert (p.line - up) * c == p.line * c + (-up) * c;
    }
    ClampSettles(Point(p.line - up, col), d, boundary);
  }

  /** Rounding the borrow up and reducing the column describe the same difference. */
  lemma SubSteps(column: nat, rhs: nat, c: nat)
    requires column < c
    ensures -((rhs + c - 1 - column) / c) * c + (c + column - rhs % c) % c == column - rhs
  {
    var q, r := rhs / c, rhs % c;
    if r <= column {
      PosUnique(1, column - r, c, c + column - r);
      PosUnique(q, r + c - 1 - column, c, rhs + c - 1 - column);
    } else {
      PosUnique(0, c + column - r, c, c + column - r);
      PosUnique(q + 1, r - 1 - column, c, rhs + c - 1 - column);
    }
  }

  /** With no boundary the grid is a ring: subtracting what was added gives the point back. */
  lemma SubUndoesAdd(p: Point, d: Dimensions, rhs: nat)
    requires d.Valid() && d.InGrid(p)
    ensures d.InGrid(Add(p, d, Unbounded, rhs))
    ensures Sub(Add(p, d, Unbounded, rhs), d, Unbounded, rhs) == p
  {
    var a := Add(p, d, Unbounded, rhs);
    AddIsLinear(p, d, Unbounded, rhs);
    SubIsLinear(a, d, Unbounded, rhs);
    RingReturns(p, a, Sub(a, d, Unbounded, rhs), d, rhs);
  }

  lemma AddUndoesSub(p: Point, d: Dimensions, rhs: nat)
    requires d.Valid() && d.InGrid(p)
    ensures d.InGrid(Sub(p, d, Unbounded, rhs))
    ensures Add(Sub(p, d, Unbounded, rhs), d, Unbounded, rhs) == p
  {
    var a := Sub(p, d, Unbounded, rhs);
    SubIsLinear(p, d, Unbounded, rhs);
    AddIsLinear(a, d, Unbounded, rhs);
    RingReturns(p, a, Add(a, d, Unbounded, rhs), d, 0 - rhs);
  }

  lemma RingReturns(p: Point, there: Point, back: Point, d: Dimensions, n: int)
    requires d.Valid() && d.InGrid(p) && there.column < d.columns && back.column < d.columns
    requires Pos(there, d.columns) == Settle(Pos(p, d.columns) + n, d, Unbounded)
    requires Pos(back, d.columns) == Settle(Pos(there, d.columns) - n, d, Unbounded)
    ensures d.InGrid(there) && back == p
  {
    RingInGrid(there, d, Pos(p, d.columns) + n);
    InGridByPos(d, p);
    RingCancels(Pos(p, d.columns), n, d);
    PosOrder(p, back, d.columns);
  }

  lemma RingSize(d: Dimensions)
    requires d.Valid()
    ensures d.totalLines * d.columns == d.Beyond() - d.First() > 0
  {
    assert d.totalLines == d.Bottommost() + 1 - d.Topmost();
    LineGap(0, d.totalLines, d.columns);
  }

  lemma RingInGrid(p: Point, d: Dimensions, x: int)
    requires d.Valid() && p.column < d.columns && Pos(p, d.columns) == Settle(x, d, Unbounded)
    ensures d.InGrid(p)
  {
    RingSize(d);
    InGridByPos(d, p);
  }

  lemma RingCancels(x: int, n: int, d: Dimensions)
    requires d.Valid() && d.First() <= x < d.Beyond()
    ensures Settle(Settle(x + n, d, Unbounded) - n, d, Unbounded) == x
  {
    RingSize(d);
    var size := d.totalLines * d.columns;
    var y := x - d.First() + n;
    var q := y / size;
    assert y % size - n == (x - d.First()) + (-q) * size;
    ModShift(x - d.First(), -q, size);
    PosUnique(0, x - d.First(), size, x - d.First());
  }

  /** Clamping to the viewport or the grid is idempotent, keeps the point order, and lands inside. */
  lemma ClampIsAProjection(p: Point, q: Point, d: Dimensions, boundary: Boundary)
    requires d.Valid() && p.column < d.columns && q.column < d.columns && boundary != Unbounded
    ensures d.InGrid(Clamp(p, d, boundary))
    ensures Clamp(Clamp(p, d, boundary), d, boundary) == Clamp(p, d, boundary)
    ensures AtMost(p, q) ==> AtMost(Clamp(p, d, boundary), Clamp(q, d, boundary))
    ensures d.InGrid(p) && (boundary == Cursor ==> p.line >= 0) ==> Clamp(p, d, boundary) == p
  {
    ClampSettles(p, d, boundary);
    ClampSettles(q, d, boundary);
    ClampSettles(Clamp(p, d, boundary), d, boundary);
    PosOrder(p, q, d.columns);
    PosOrder(Clamp(p, d, boundary), Clamp(q, d, boundary), d.columns);
    InGridByPos(d, p);
    InGridByPos(d, Clamp(p, d, boundary));
  }
}
