/** The bounded dense engine: a height x width grid of booleans, optionally a
    torus, advanced by Conway's fixed rule with synchronous updates. */
module BoundedGrid {
  import opened Moore
  import Rules

  /** Rows indexed by y, each row a sequence of cells indexed by x. */
  type Grid = seq<seq<bool>>

  /** `g` has `height` rows of `width` cells. */
  predicate IsGrid(g: Grid, width: nat, height: nat) {
    |g| == height && forall y :: 0 <= y < height ==> |g[y]| == width
  }

  /** Every cell of `g` is dead. */
  predicate AllDead(g: Grid) {
    forall y, x :: 0 <= y < |g| && 0 <= x < |g[y]| ==> !g[y][x]
  }

  /** A fresh grid of dead cells. */
  function DeadGrid(width: nat, height: nat): (g: Grid)
    ensures IsGrid(g, width, height) && AllDead(g)
  {
    seq(height, _ => seq(width, _ => false))
  }

  /** `g` with cell (x, y) flipped. */
  function Toggled(g: Grid, x: nat, y: nat): (r: Grid)
    requires y < |g| && x < |g[y]|
    ensures |r| == |g| && forall j :: 0 <= j < |g| ==> |r[j]| == |g[j]|
    ensures r[y][x] == !g[y][x]
    ensures forall j, i :: 0 <= j < |g| && 0 <= i < |g[j]| && (i, j) != (x, y) ==> r[j][i] == g[j][i]
  {
    g[y := g[y][x := !g[y][x]]]
  }

  /** A neighbour coordinate as the engine tests it: reduced modulo the
      dimension when wrapping is on, untouched otherwise. */
  function Reduce(n: int, size: nat, wrap: bool): (r: int)
    requires wrap ==> size > 0
    ensures wrap ==> 0 <= r < size
    ensures !wrap ==> r == n
    ensures 0 <= n < size ==> r == n
  {
    if wrap then n % size else n
  }

  /** Whether probing the neighbour at (nx, ny) adds one to the count: the
      reduced coordinate lies in the grid and that cell is alive. */
  function Probe(g: Grid, width: nat, height: nat, wrap: bool, nx: int, ny: int): (b: bool)
    requires IsGrid(g, width, height) && (wrap ==> width > 0 && height > 0)
    ensures 0 <= nx < width && 0 <= ny < height ==> (b <==> g[ny][nx])
  {
    var px, py := Reduce(nx, width, wrap), Reduce(ny, height, wrap);
    0 <= px < width && 0 <= py < height && g[py][px]
  }

  /** Live probes among the first k directions around (x, y). */
  function CountFirst(g: Grid, width: nat, height: nat, wrap: bool, x: int, y: int, k: nat): (n: nat)
    requires IsGrid(g, width, height) && (wrap ==> width > 0 && height > 0)
    requires k <= |Directions|
    ensures n <= k
  {
    if k == 0 then 0
    else
      var d := Directions[k - 1];
      CountFirst(g, width, height, wrap, x, y, k - 1)
        + (if Probe(g, width, height, wrap, x + d.0, y + d.1) then 1 else 0)
  }

  /** The number of live Moore neighbours of (x, y); never more than 8. */
  function NeighborCount(g: Grid, width: nat, height: nat, wrap: bool, x: int, y: int): (n: nat)
    requires IsGrid(g, width, height) && (wrap ==> width > 0 && height > 0)
    ensures n <= 8
  {
    CountFirst(g, width, height, wrap, x, y, |Directions|)
  }

  /** The engine's fixed rule: survive on 2 or 3 neighbours, be born on 3. */
  predicate Lives(alive: bool, n: int) {
    (alive && (n == 2 || n == 3)) || (!alive && n == 3)
  }

  /** The next generation of `g`, every cell computed from the old grid. */
  function NextGrid(g: Grid, width: nat, height: nat, wrap: bool): (r: Grid)
    requires IsGrid(g, width, height)
    ensures IsGrid(r, width, height)
  {
    seq(height, y requires 0 <= y < height =>
      seq(width, x requires 0 <= x < width =>
        Lives(g[y][x], NeighborCount(g, width, height, wrap, x, y))))
  }

  /** The fixed rule is the thresholds (2, 3, 3) of the general rule. */
  lemma LivesIsConway(alive: bool, n: int)
    ensures Lives(alive, n) == Rules.NextState(Rules.Conway, alive, n)
  {
  }

  /** Without wrapping, a neighbour outside the grid never contributes. */
  lemma OutsideNeverCounts(g: Grid, width: nat, height: nat, nx: int, ny: int)
    requires IsGrid(g, width, height)
    requires !(0 <= nx < width && 0 <= ny < height)
    ensures !Probe(g, width, height, false, nx, ny)
  {
  }

  /** With wrapping, every probe reads a real cell: the one at the neighbour's
      coordinates taken modulo the dimensions. */
  lemma WrappedAlwaysInRange(g: Grid, width: nat, height: nat, nx: int, ny: int)
    requires IsGrid(g, width, height) && width > 0 && height > 0
    ensures Probe(g, width, height, true, nx, ny) == g[ny % height][nx % width]
  {
  }

  /** On a wrapping grid the opposite corner is a neighbour of (0, 0); on a
      non-wrapping grid it is not looked at. */
  lemma {:induction false} CornerAdjacentOnlyWhenWrapping(g: Grid, width: nat, height: nat)
    requires IsGrid(g, width, height) && width >= 3 && height >= 3
    requires g[height - 1][width - 1]
    ensures NeighborCount(g, width, height, true, 0, 0) >= 1
    ensures NeighborCount(g, width, height, false, 0, 0)
         == NeighborCount(g[height - 1 := g[height - 1][width - 1 := false]], width, height, false, 0, 0)
  {
    var g' := g[height - 1 := g[height - 1][width - 1 := false]];
    assert Probe(g, width, height, true, 0 + Directions[0].0, 0 + Directions[0].1);
    CountFirstMonotone(g, width, height, true, 0, 0, 1, 8);
    CountFirstSameProbes(g, g', width, height, 8);
  }

  lemma {:induction false} CountFirstMonotone(g: Grid, width: nat, height: nat, wrap: bool, x: int, y: int, j: nat, k: nat)
    requires IsGrid(g, width, height) && (wrap ==> width > 0 && height > 0)
    requires j <= k <= |Directions|
    ensures CountFirst(g, width, height, wrap, x, y, j) <= CountFirst(g, width, height, wrap, x, y, k)
  {
    if j < k {
      CountFirstMonotone(g, width, height, wrap, x, y, j, k - 1);
    }
  }

  /** Two grids that differ only in the far corner give (0, 0) the same
      non-wrapping count. */
  lemma {:induction false} CountFirstSameProbes(g: Grid, g': Grid, width: nat, height: nat, k: nat)
    requires IsGrid(g, width, height) && IsGrid(g', width, height)
    requires k <= |Directions|
    requires width >= 3 && height >= 3
    requires forall j, i :: 0 <= j < height && 0 <= i < width && (j, i) != (height - 1, width - 1) ==> g[j][i] == g'[j][i]
    ensures CountFirst(g, width, height, false, 0, 0, k) == CountFirst(g', width, height, false, 0, 0, k)
  {
    if k > 0 {
      CountFirstSameProbes(g, g', width, height, k - 1);
    }
  }

  /** A dead grid has no live neighbours anywhere. */
  lemma {:induction false} DeadGridCountsZero(g: Grid, width: nat, height: nat, wrap: bool, x: int, y: int, k: nat)
    requires IsGrid(g, width, height) && (wrap ==> width > 0 && height > 0) && AllDead(g)
    requires k <= |Directions|
    ensures CountFirst(g, width, height, wrap, x, y, k) == 0
  {
    if k > 0 {
      DeadGridCountsZero(g, width, height, wrap, x, y, k - 1);
    }
  }

  /** An all-dead grid stays all dead. */
  lemma DeadGridStaysDead(g: Grid, width: nat, height: nat, wrap: bool)
    requires IsGrid(g, width, height) && AllDead(g)
    ensures NextGrid(g, width, height, wrap) == DeadGrid(width, height)
  {
    var r := NextGrid(g, width, height, wrap);
    forall y, x | 0 <= y < height && 0 <= x < width
      ensures !r[y][x]
    {
      DeadGridCountsZero(g, width, height, wrap, x, y, |Directions|);
    }
    var d := DeadGrid(width, height);
    forall y | 0 <= y < height
      ensures r[y] == d[y]
    {
      assert forall x :: 0 <= x < width ==> r[y][x] == d[y][x];
    }
  }

  /** On a torus narrower or shorter than three cells the eight offsets no
      longer reach eight different cells: on a 2 x 3 torus the only live cell
      (1, 1) is probed twice from (0, 1), and on a 1 x 1 torus a live cell is
      its own neighbour eight times over. */
  lemma NarrowTorusRepeatsProbes()
    ensures NeighborCount([[false, false], [false, true], [false, false]], 2, 3, true, 0, 1) == 2
    ensures NeighborCount([[true]], 1, 1, true, 0, 0) == 8
  {
  }

  /** Toggling the same cell twice restores the grid. */
  lemma ToggleTwice(g: Grid, x: nat, y: nat)
    requires y < |g| && x < |g[y]|
    ensures Toggled(Toggled(g, x, y), x, y) == g
  {
    var t := Toggled(Toggled(g, x, y), x, y);
    assert t[y] == g[y];
  }

  /** The engine: a grid of fixed dimensions, an optional wrap-around and a
      generation counter. */
  class GameOfLife {
    const width: nat
    const height: nat
    const wrap: bool
    var generation: nat
    var grid: Grid

    ghost predicate Valid()
      reads this
    {
      IsGrid(grid, width, height)
    }

    /** A dead grid of the given size at generation 0. */
    constructor (width: nat, height: nat, wrap: bool := false)
      ensures Valid()
      ensures this.width == width && this.height == height && this.wrap == wrap
      ensures generation == 0 && AllDead(grid)
    {
      this.width := width;
      this.height := height;
      this.wrap := wrap;
      generation := 0;
      grid := DeadGrid(width, height);
    }

    /** Flip the cell at column x, row y; nothing else changes. */
    method ToggleCell(x: nat, y: nat)
      requires Valid() && x < width && y < height
      modifies this`grid
      ensures Valid()
      ensures grid[y][x] == !old(grid[y][x])
      ensures forall j, i :: 0 <= j < height && 0 <= i < width && (i, j) != (x, y) ==> grid[j][i] == old(grid[j][i])
      ensures grid == Toggled(old(grid), x, y)
    {
      grid := grid[y := grid[y][x := !grid[y][x]]];
    }

    /** Count the live neighbours of (x, y), probing the eight directions in
        order. */
    method CountAliveNeighbors(x: int, y: int) returns (count: nat)
      requires Valid() && (wrap ==> width > 0 && height > 0)
      ensures count == NeighborCount(grid, width, height, wrap, x, y)
      ensures count <= 8
    {
      count := 0;
      for k := 0 to |Directions|
        invariant count == CountFirst(grid, width, height, wrap, x, y, k)
      {
        var (dx, dy) := Directions[k];
        var nx, ny := x + dx, y + dy;
        if wrap {
          nx := nx % width;
          ny := ny % height;
        }
        if 0 <= nx < width && 0 <= ny < height {
          if grid[ny][nx] {
            count := count + 1;
          }
        }
      }
    }

    /** Advance one generation: build a fresh grid from the old one, then swap
        it in and count the generation. */
    method NextGeneration()
      requires Valid()
      modifies this`grid, this`generation
      ensures Valid()
      ensures generation == old(generation) + 1
      ensures forall y, x :: 0 <= y < height && 0 <= x < width ==>
                grid[y][x] == Lives(old(grid)[y][x], NeighborCount(old(grid), width, height, wrap, x, y))
      ensures grid == NextGrid(old(grid), width, height, wrap)
    {
      var newGrid := DeadGrid(width, height);
      for y := 0 to height
        invariant grid == old(grid) && generation == old(generation)
        invariant IsGrid(newGrid, width, height)
        invariant forall j, i :: 0 <= j < y && 0 <= i < width ==>
                    newGrid[j][i] == Lives(grid[j][i], NeighborCount(grid, width, height, wrap, i, j))
        invariant forall j, i :: y <= j < height && 0 <= i < width ==> !newGrid[j][i]
      {
        for x := 0 to width
          invariant grid == old(grid) && generation == old(generation)
          invariant IsGrid(newGrid, width, height)
          invariant forall j, i :: 0 <= j < y && 0 <= i < width ==>
                      newGrid[j][i] == Lives(grid[j][i], NeighborCount(grid, width, height, wrap, i, j))
          invariant forall i :: 0 <= i < x ==>
                      newGrid[y][i] == Lives(grid[y][i], NeighborCount(grid, width, height, wrap, i, y))
          invariant forall j, i :: y <= j < height && 0 <= i < width && (j > y || i >= x) ==> !newGrid[j][i]
        {
          var aliveNeighbors := CountAliveNeighbors(x, y);
          var cellAlive := grid[y][x];
          if cellAlive && (aliveNeighbors == 2 || aliveNeighbors == 3) {
            newGrid := newGrid[y := newGrid[y][x := true]];
          } else if !cellAlive && aliveNeighbors == 3 {
            newGrid := newGrid[y := newGrid[y][x := true]];
          }
        }
      }
      ghost var next := NextGrid(grid, width, height, wrap);
      forall y | 0 <= y < height
        ensures newGrid[y] == next[y]
      {
        assert forall x :: 0 <= x < width ==> newGrid[y][x] == next[y][x];
      }
      grid := newGrid;
      generation := generation + 1;
    }

    /** Kill every cell and reset the generation counter. */
    method Clear()
      requires Valid()
      modifies this`grid, this`generation
      ensures Valid() && AllDead(grid) && generation == 0
    {
      grid := DeadGrid(width, height);
      generation := 0;
    }

    /** The current generation number. */
    method GetGeneration() returns (g: nat)
      ensures g == generation
    {
      g := generation;
    }
  }
}
