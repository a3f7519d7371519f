/** The integer logic of the grid canvas: Bresenham's line painted into the
    bounded grid while dragging, and the fixed-view mapping from a screen
    pixel to a grid cell. */
module Canvas {
  import opened Moore
  import opened BoundedGrid

  datatype Option<T> = None | Some(value: T)

  function Abs(n: int): nat {
    if n < 0 then -n else n
  }

  // ---------------------------------------------------------------------
  // Bresenham's line

  /** The fixed quantities of one line: the target, the deltas and the step
      directions. */
  datatype Line = Line(x2: int, y2: int, dx: int, dy: int, sx: int, sy: int)

  /** The loop variables: the current point and the error term. */
  datatype Cursor = Cursor(x: int, y: int, err: int)

  /** The quantities set up before the loop: dx steps of sx lead from x1 to
      x2, and dy steps of sy from y1 to y2. */
  function Setup(x1: int, y1: int, x2: int, y2: int): (l: Line)
    ensures l.x2 == x2 && l.y2 == y2 && l.dx >= 0 && l.dy >= 0
    ensures (l.sx == 1 || l.sx == -1) && (l.sy == 1 || l.sy == -1)
    ensures x1 + l.sx * l.dx == x2 && y1 + l.sy * l.dy == y2
  {
    Line(x2, y2, Abs(x2 - x1), Abs(y2 - y1), if x1 < x2 then 1 else -1, if y1 < y2 then 1 else -1)
  }

  function Start(l: Line, x1: int, y1: int): Cursor {
    Cursor(x1, y1, l.dx - l.dy)
  }

  /** Steps still to take from column x to the target, counted in the
      direction of sx. */
  function RemainingX(l: Line, x: int): int {
    if l.sx == 1 then l.x2 - x else x - l.x2
  }

  /** Steps still to take from row y to the target, counted in the direction
      of sy. */
  function RemainingY(l: Line, y: int): int {
    if l.sy == 1 then l.y2 - y else y - l.y2
  }

  /** Bresenham's invariant: the cursor has not passed the target along
      either axis, and the error term records how far the remaining vector
      lies from the ideal line. */
  ghost predicate OnTrack(l: Line, c: Cursor) {
    && (l.sx == 1 || l.sx == -1) && (l.sy == 1 || l.sy == -1)
    && l.dx >= 0 && l.dy >= 0
    && 0 <= RemainingX(l, c.x) <= l.dx && 0 <= RemainingY(l, c.y) <= l.dy
    && c.err == l.dx - l.dy + l.dy * RemainingX(l, c.x) - l.dx * RemainingY(l, c.y)
  }

  /** One pass of the loop body after the target test. */
  function Advance(l: Line, c: Cursor): Cursor {
    var e2 := 2 * c.err;
    var c1 := if e2 > -l.dy then Cursor(c.x + l.sx, c.y, c.err - l.dy) else c;
    if e2 < l.dx then Cursor(c1.x, c1.y + l.sy, c1.err + l.dx) else c1
  }

  lemma StartOnTrack(x1: int, y1: int, x2: int, y2: int)
    ensures OnTrack(Setup(x1, y1, x2, y2), Start(Setup(x1, y1, x2, y2), x1, y1))
  {
    var l := Setup(x1, y1, x2, y2);
    assert RemainingX(l, Start(l, x1, y1).x) == l.dx;
    assert RemainingY(l, Start(l, x1, y1).y) == l.dy;
  }

  /** Away from the target, the doubled error only calls for a step along an
      axis with distance left on it, and calls for at least one step. */
  lemma StepsAvailable(l: Line, c: Cursor)
    requires OnTrack(l, c) && (c.x, c.y) != (l.x2, l.y2)
    ensures 2 * c.err > -l.dy ==> RemainingX(l, c.x) >= 1
    ensures 2 * c.err < l.dx ==> RemainingY(l, c.y) >= 1
    ensures 2 * c.err > -l.dy || 2 * c.err < l.dx
  {
    MulAtLeast(l.dx, RemainingY(l, c.y));
    MulAtLeast(l.dy, RemainingX(l, c.x));
  }

  /** Away from the target, a pass keeps the invariant, moves each coordinate
      by zero or one step towards the target, and moves at least one. */
  lemma AdvanceOnTrack(l: Line, c: Cursor)
    requires OnTrack(l, c) && (c.x, c.y) != (l.x2, l.y2)
    ensures var n := Advance(l, c);
      && OnTrack(l, n)
      && (n.x == c.x || n.x == c.x + l.sx) && (n.y == c.y || n.y == c.y + l.sy)
      && (n.x, n.y) != (c.x, c.y)
      && RemainingX(l, n.x) <= RemainingX(l, c.x) && RemainingY(l, n.y) <= RemainingY(l, c.y)
      && RemainingX(l, n.x) + RemainingY(l, n.y) < RemainingX(l, c.x) + RemainingY(l, c.y)
  {
    var a, b := RemainingX(l, c.x), RemainingY(l, c.y);
    var stepX, stepY := 2 * c.err > -l.dy, 2 * c.err < l.dx;
    StepsAvailable(l, c);
    var n := Advance(l, c);
    var a', b' := a - (if stepX then 1 else 0), b - (if stepY then 1 else 0);
    assert RemainingX(l, n.x) == a';
    assert RemainingY(l, n.y) == b';
    MulPred(l.dy, a);
    MulPred(l.dx, b);
    assert n.err == l.dx - l.dy + l.dy * a' - l.dx * b';
  }

  lemma MulAtLeast(k: int, m: int)
    requires k >= 0
    ensures m >= 1 ==> k * m >= k
  {
  }

  lemma MulPred(k: int, m: int)
    ensures k * (m - 1) == k * m - k
  {
  }

  lemma MulMono(k: int, a: int, b: int)
    requires k >= 0
    ensures a <= b ==> k * a <= k * b
  {
    MulAtLeast(k, b - a + 1);
    MulPred(k, b - a + 1);
  }

  /** The points the loop visits from cursor `c`, the target last. */
  function Trace(l: Line, c: Cursor): (pts: seq<Cell>)
    requires OnTrack(l, c)
    ensures |pts| >= 1 && pts[0] == (c.x, c.y) && pts[|pts| - 1] == (l.x2, l.y2)
    decreases RemainingX(l, c.x) + RemainingY(l, c.y)
  {
    if (c.x, c.y) == (l.x2, l.y2) then [(c.x, c.y)]
    else
      AdvanceOnTrack(l, c);
      [(c.x, c.y)] + Trace(l, Advance(l, c))
  }

  /** The cells of the line from (x1, y1) to (x2, y2), in drawing order. */
  function LinePoints(x1: int, y1: int, x2: int, y2: int): (pts: seq<Cell>)
    ensures |pts| >= 1 && pts[0] == (x1, y1) && pts[|pts| - 1] == (x2, y2)
    ensures (x1, y1) in pts && (x2, y2) in pts
  {
    StartOnTrack(x1, y1, x2, y2);
    Trace(Setup(x1, y1, x2, y2), Start(Setup(x1, y1, x2, y2), x1, y1))
  }

  /** Moving from p to q is one step or none along each axis, in the
      direction of the target, and not no step at all. */
  ghost predicate Stepwise(l: Line, p: Cell, q: Cell) {
    (q.0 == p.0 || q.0 == p.0 + l.sx) && (q.1 == p.1 || q.1 == p.1 + l.sy) && q != p
  }

  /** Point p lies between the cursor `c` and the target along both axes. */
  ghost predicate Between(l: Line, c: Cursor, p: Cell) {
    && 0 <= RemainingX(l, p.0) <= RemainingX(l, c.x)
    && 0 <= RemainingY(l, p.1) <= RemainingY(l, c.y)
  }

  /** Every point of `pts` is a stepwise move from the one before it. */
  ghost predicate Connected(l: Line, pts: seq<Cell>) {
    forall i :: 0 <= i < |pts| - 1 ==> Stepwise(l, pts[i], pts[i + 1])
  }

  /** Every point of `pts` lies between cursor `c` and the target. */
  ghost predicate AllBetween(l: Line, c: Cursor, pts: seq<Cell>) {
    forall i :: 0 <= i < |pts| ==> Between(l, c, pts[i])
  }

  /** Consecutive points of a trace are stepwise, and no point of it lies
      beyond the target or behind its start. */
  lemma {:induction false} TraceConnected(l: Line, c: Cursor)
    requires OnTrack(l, c)
    ensures Connected(l, Trace(l, c))
    ensures AllBetween(l, c, Trace(l, c))
    decreases RemainingX(l, c.x) + RemainingY(l, c.y)
  {
    var pts := Trace(l, c);
    if (c.x, c.y) == (l.x2, l.y2) {
      assert pts == [(c.x, c.y)];
    } else {
      AdvanceOnTrack(l, c);
      var next := Advance(l, c);
      TraceConnected(l, next);
      var rest := Trace(l, next);
      assert pts == [(c.x, c.y)] + rest;
      assert Stepwise(l, pts[0], pts[1]);
      assert Between(l, c, pts[0]);
      forall i | 1 <= i < |pts| - 1
        ensures Stepwise(l, pts[i], pts[i + 1])
      {
        assert pts[i] == rest[i - 1] && pts[i + 1] == rest[i - 1 + 1];
        assert Stepwise(l, rest[i - 1], rest[i - 1 + 1]);
      }
      forall i | 1 <= i < |pts|
        ensures Between(l, c, pts[i])
      {
        assert pts[i] == rest[i - 1];
        assert Between(l, next, rest[i - 1]);
      }
    }
  }

  /** The drawn line is continuous and heads straight for the target:
      consecutive cells are distinct, and each moves by zero or one step
      along each axis, always in the direction of (x2, y2). */
  lemma LineSteps(x1: int, y1: int, x2: int, y2: int)
    ensures var pts := LinePoints(x1, y1, x2, y2);
      forall i :: 0 <= i < |pts| - 1 ==>
        && pts[i + 1] != pts[i]
        && (pts[i + 1].0 == pts[i].0 || pts[i + 1].0 == pts[i].0 + (if x1 < x2 then 1 else -1))
        && (pts[i + 1].1 == pts[i].1 || pts[i + 1].1 == pts[i].1 + (if y1 < y2 then 1 else -1))
  {
    var l := Setup(x1, y1, x2, y2);
    StartOnTrack(x1, y1, x2, y2);
    TraceConnected(l, Start(l, x1, y1));
    var pts := LinePoints(x1, y1, x2, y2);
    assert Connected(l, pts);
  }

  /** No cell of the drawn line lies outside the rectangle spanned by its
      endpoints, so the walk never overshoots the target. */
  lemma LineInBox(x1: int, y1: int, x2: int, y2: int)
    ensures var pts := LinePoints(x1, y1, x2, y2);
      forall i :: 0 <= i < |pts| ==>
        && (x1 <= pts[i].0 <= x2 || x2 <= pts[i].0 <= x1)
        && (y1 <= pts[i].1 <= y2 || y2 <= pts[i].1 <= y1)
  {
    var l := Setup(x1, y1, x2, y2);
    var c := Start(l, x1, y1);
    StartOnTrack(x1, y1, x2, y2);
    TraceConnected(l, c);
    var pts := LinePoints(x1, y1, x2, y2);
    forall i | 0 <= i < |pts|
      ensures && (x1 <= pts[i].0 <= x2 || x2 <= pts[i].0 <= x1)
              && (y1 <= pts[i].1 <= y2 || y2 <= pts[i].1 <= y1)
    {
      assert Between(l, c, pts[i]);
    }
  }

  // ---------------------------------------------------------------------
  // Painting the line into the grid

  /** `g` with cell `p` made alive if it lies in the grid. */
  function Paint(g: Grid, width: nat, height: nat, p: Cell): (r: Grid)
    requires IsGrid(g, width, height)
    ensures IsGrid(r, width, height)
  {
    if 0 <= p.0 < width && 0 <= p.1 < height then g[p.1 := g[p.1][p.0 := true]] else g
  }

  /** `g` with every in-range point of `pts` made alive, in order. */
  function PaintAll(g: Grid, width: nat, height: nat, pts: seq<Cell>): (r: Grid)
    requires IsGrid(g, width, height)
    ensures IsGrid(r, width, height)
    decreases |pts|
  {
    if pts == [] then g else PaintAll(Paint(g, width, height, pts[0]), width, height, pts[1..])
  }

  /** Painting only sets cells: a cell is alive afterwards exactly when it was
      alive before or lies on the path. */
  lemma {:induction false} PaintAllAt(g: Grid, width: nat, height: nat, pts: seq<Cell>, x: int, y: int)
    requires IsGrid(g, width, height) && 0 <= x < width && 0 <= y < height
    ensures PaintAll(g, width, height, pts)[y][x] == (g[y][x] || (x, y) in pts)
    decreases |pts|
  {
    if pts != [] {
      PaintAllAt(Paint(g, width, height, pts[0]), width, height, pts[1..], x, y);
      assert (x, y) in pts <==> (x, y) == pts[0] || (x, y) in pts[1..];
    }
  }

  /** Painting a line sets exactly the in-range cells on it, both endpoints
      among them, and leaves every other cell as it was. */
  lemma LinePainted(g: Grid, width: nat, height: nat, x1: int, y1: int, x2: int, y2: int)
    requires IsGrid(g, width, height)
    ensures var r := PaintAll(g, width, height, LinePoints(x1, y1, x2, y2));
      forall y, x :: 0 <= y < height && 0 <= x < width ==>
        r[y][x] == (g[y][x] || (x, y) in LinePoints(x1, y1, x2, y2))
    ensures var r := PaintAll(g, width, height, LinePoints(x1, y1, x2, y2));
      && (0 <= x1 < width && 0 <= y1 < height ==> r[y1][x1])
      && (0 <= x2 < width && 0 <= y2 < height ==> r[y2][x2])
  {
    var pts := LinePoints(x1, y1, x2, y2);
    forall y, x | 0 <= y < height && 0 <= x < width
      ensures PaintAll(g, width, height, pts)[y][x] == (g[y][x] || (x, y) in pts)
    {
      PaintAllAt(g, width, height, pts, x, y);
    }
  }

  /** At the target the loop paints the last point and stops. */
  lemma TraceAtTarget(g: Grid, width: nat, height: nat, l: Line, c: Cursor)
    requires IsGrid(g, width, height) && OnTrack(l, c) && (c.x, c.y) == (l.x2, l.y2)
    ensures PaintAll(g, width, height, Trace(l, c)) == Paint(g, width, height, (c.x, c.y))
  {
    assert Trace(l, c) == [(c.x, c.y)];
  }

  /** Away from the target the loop paints the current point and goes on
      from the advanced cursor. */
  lemma TraceStep(g: Grid, width: nat, height: nat, l: Line, c: Cursor)
    requires IsGrid(g, width, height) && OnTrack(l, c) && (c.x, c.y) != (l.x2, l.y2)
    ensures OnTrack(l, Advance(l, c))
    ensures RemainingX(l, Advance(l, c).x) + RemainingY(l, Advance(l, c).y) < RemainingX(l, c.x) + RemainingY(l, c.y)
    ensures PaintAll(g, width, height, Trace(l, c))
         == PaintAll(Paint(g, width, height, (c.x, c.y)), width, height, Trace(l, Advance(l, c)))
  {
    AdvanceOnTrack(l, c);
    var pts := Trace(l, c);
    assert pts == [(c.x, c.y)] + Trace(l, Advance(l, c));
    assert pts[1..] == Trace(l, Advance(l, c));
  }

  /** Make cell (x, y) alive when it lies in the grid; otherwise do
      nothing. */
  method SetIfInRange(game: GameOfLife, x: int, y: int)
    requires game.Valid()
    modifies game`grid
    ensures game.Valid()
    ensures game.grid == Paint(old(game.grid), game.width, game.height, (x, y))
  {
    if 0 <= x < game.width && 0 <= y < game.height {
      game.grid := game.grid[y := game.grid[y][x := true]];
    }
  }

  /** One pass of the loop body after the target test: step along x when
      the doubled error exceeds -dy, along y when it is below dx. */
  method AdvanceCursor(l: Line, x: int, y: int, err: int) returns (x': int, y': int, err': int)
    ensures Cursor(x', y', err') == Advance(l, Cursor(x, y, err))
  {
    x', y', err' := x, y, err;
    var e2 := 2 * err;
    if e2 > -l.dy {
      err' := err' - l.dy;
      x' := x' + l.sx;
    }
    if e2 < l.dx {
      err' := err' + l.dx;
      y' := y' + l.sy;
    }
  }

  /** Draw a continuous line of live cells from (x1, y1) to (x2, y2) into the
      game's grid; out-of-range points are skipped. */
  method DrawLineBetweenPoints(game: GameOfLife, x1: int, y1: int, x2: int, y2: int)
    requires game.Valid()
    modifies game`grid
    ensures game.Valid()
    ensures game.grid == PaintAll(old(game.grid), game.width, game.height, LinePoints(x1, y1, x2, y2))
    ensures forall y, x :: 0 <= y < game.height && 0 <= x < game.width ==>
              game.grid[y][x] == (old(game.grid)[y][x] || (x, y) in LinePoints(x1, y1, x2, y2))
    ensures 0 <= x1 < game.width && 0 <= y1 < game.height ==> game.grid[y1][x1]
    ensures 0 <= x2 < game.width && 0 <= y2 < game.height ==> game.grid[y2][x2]
  {
    var dx: int := Abs(x2 - x1);
    var dy: int := Abs(y2 - y1);
    var sx := if x1 < x2 then 1 else -1;
    var sy := if y1 < y2 then 1 else -1;
    var err := dx - dy;
    var x, y := x1, y1;
    var l := Line(x2, y2, dx, dy, sx, sy);
    assert l == Setup(x1, y1, x2, y2);
    StartOnTrack(x1, y1, x2, y2);
    assert Cursor(x, y, err) == Start(l, x1, y1);
    ghost var final := PaintAll(game.grid, game.width, game.height, Trace(l, Cursor(x, y, err)));
    assert final == PaintAll(old(game.grid), game.width, game.height, LinePoints(x1, y1, x2, y2));
    while true
      invariant game.Valid()
      invariant OnTrack(l, Cursor(x, y, err))
      invariant PaintAll(game.grid, game.width, game.height, Trace(l, Cursor(x, y, err))) == final
      decreases RemainingX(l, x) + RemainingY(l, y)
    {
      ghost var c := Cursor(x, y, err);
      ghost var g0 := game.grid;
      SetIfInRange(game, x, y);
      if x == x2 && y == y2 {
        TraceAtTarget(g0, game.width, game.height, l, c);
        break;
      }
      TraceStep(g0, game.width, game.height, l, c);
      x, y, err := AdvanceCursor(l, x, y, err);
    }
    LinePainted(old(game.grid), game.width, game.height, x1, y1, x2, y2);
  }

  // ---------------------------------------------------------------------
  // Screen to cell, fixed view

  function Min(a: int, b: int): int {
    if a <= b then a else b
  }

  /** Side in pixels of one cell when the whole grid is fitted into the
      widget. */
  function CellSize(widgetWidth: nat, widgetHeight: nat, cols: nat, rows: nat): (c: int)
    requires cols > 0 && rows > 0
    ensures c >= 0 && cols * c <= widgetWidth && rows * c <= widgetHeight
    ensures cols <= widgetWidth && rows <= widgetHeight ==> c >= 1
  {
    var c := Min(widgetWidth / cols, widgetHeight / rows);
    FitsBelow(widgetWidth, cols, c);
    FitsBelow(widgetHeight, rows, c);
    c
  }

  /** `count` cells of any side up to size / count fit into `size` pixels,
      and that side is at least 1 when there are no more cells than pixels. */
  lemma FitsBelow(size: nat, count: nat, c: int)
    requires count > 0 && 0 <= c <= size / count
    ensures count * c <= size
    ensures count <= size ==> size / count >= 1
  {
    MulMono(count, c, size / count);
    if count <= size {
      DivAtLeastOne(size, count);
    }
  }

  /** Left (or top) margin that centres `count` cells of side `cellPx` in a
      widget of `size` pixels. */
  function Margin(size: nat, count: nat, cellPx: int): (m: int)
    ensures count * cellPx <= size ==> m >= 0 && 2 * m <= size - count * cellPx <= 2 * m + 1
  {
    (size - count * cellPx) / 2
  }

  /** Floor division by a positive divisor lands in [0, k) exactly when the
      dividend lands in [0, k * c), and the quotient brackets the dividend. */
  lemma FloorDivFacts(n: int, c: int, k: nat)
    requires c > 0
    ensures c * (n / c) <= n < c * (n / c) + c
    ensures 0 <= n / c < k <==> 0 <= n < k * c
  {
    var q := n / c;
    assert n == c * q + n % c;
    MulMono(c, 0, q);
    MulMono(c, q, -1);
    MulMono(c, q, k - 1);
    MulMono(c, k, q);
    MulPred(c, k);
    MulPred(c, 0);
  }

  /** A dividend at least as large as its positive divisor has a quotient of
      at least one. */
  lemma DivAtLeastOne(n: int, c: int)
    requires 0 < c <= n
    ensures n / c >= 1
  {
    var q := n / c;
    assert n == c * q + n % c;
    MulMono(c, q, 0);
  }

  /** One axis of the screen-to-cell mapping: the pixel falls in the index
      range exactly when it lies on the board, and then inside the square of
      the index it maps to. */
  lemma AxisFacts(p: int, offset: int, c: int, count: nat)
    requires c > 0
    ensures var q := (p - offset) / c;
      && (0 <= q < count <==> offset <= p < offset + count * c)
      && offset + q * c <= p < offset + q * c + c
  {
    FloorDivFacts(p - offset, c, count);
  }

  /** The cell under pixel (px, py) in the fixed view, or None when the pixel
      is off the grid. Some exactly when the pixel lies on the drawn board,
      and then it lies inside that cell's square. */
  function CellCoords(px: int, py: int, widgetWidth: nat, widgetHeight: nat, cols: nat, rows: nat): (r: Option<Cell>)
    requires 0 < cols <= widgetWidth && 0 < rows <= widgetHeight
    ensures var c := CellSize(widgetWidth, widgetHeight, cols, rows);
      var ox, oy := Margin(widgetWidth, cols, c), Margin(widgetHeight, rows, c);
      && (r.Some? <==> ox <= px < ox + cols * c && oy <= py < oy + rows * c)
      && (r.Some? ==>
            && 0 <= r.value.0 < cols && 0 <= r.value.1 < rows
            && ox + r.value.0 * c <= px < ox + r.value.0 * c + c
            && oy + r.value.1 * c <= py < oy + r.value.1 * c + c)
  {
    DivAtLeastOne(widgetWidth, cols);
    DivAtLeastOne(widgetHeight, rows);
    var cellPx := CellSize(widgetWidth, widgetHeight, cols, rows);
    var xOffset := Margin(widgetWidth, cols, cellPx);
    var yOffset := Margin(widgetHeight, rows, cellPx);
    AxisFacts(px, xOffset, cellPx, cols);
    AxisFacts(py, yOffset, cellPx, rows);
    var x := (px - xOffset) / cellPx;
    var y := (py - yOffset) / cellPx;
    if !(0 <= x < cols && 0 <= y < rows) then None else Some((x, y))
  }

  /** Round trip with painting: every pixel of the square drawn for cell
      (gx, gy) maps back to that cell. */
  lemma CellCoordsOfDrawnSquare(gx: int, gy: int, i: int, j: int, widgetWidth: nat, widgetHeight: nat, cols: nat, rows: nat)
    requires 0 < cols <= widgetWidth && 0 < rows <= widgetHeight
    requires 0 <= gx < cols && 0 <= gy < rows
    requires 0 <= i < CellSize(widgetWidth, widgetHeight, cols, rows)
    requires 0 <= j < CellSize(widgetWidth, widgetHeight, cols, rows)
    ensures var c := CellSize(widgetWidth, widgetHeight, cols, rows);
      CellCoords(Margin(widgetWidth, cols, c) + gx * c + i, Margin(widgetHeight, rows, c) + gy * c + j,
                 widgetWidth, widgetHeight, cols, rows) == Some((gx, gy))
  {
    var c := CellSize(widgetWidth, widgetHeight, cols, rows);
    var ox, oy := Margin(widgetWidth, cols, c), Margin(widgetHeight, rows, c);
    var px, py := ox + gx * c + i, oy + gy * c + j;
    assert (px - ox) / c == gx by { DivUnique(px - ox, c, gx); }
    assert (py - oy) / c == gy by { DivUnique(py - oy, c, gy); }
    FloorDivFacts(px - ox, c, cols);
    FloorDivFacts(py - oy, c, rows);
  }

  lemma DivUnique(n: int, c: int, q: int)
    requires c > 0 && c * q <= n < c * q + c
    ensures n / c == q
  {
    var r := n / c;
    assert n == c * r + n % c;
    MulMono(c, r, q - 1);
    MulMono(c, q + 1, r);
    MulPred(c, q);
    MulPred(c, q + 1);
  }
}
