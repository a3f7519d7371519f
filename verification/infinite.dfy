/** The unbounded sparse engine: only live coordinates are stored, any integer
    pair is a legal cell, and a step looks only at live cells and their
    neighbours. */
module InfiniteGrid {
  import opened Moore
  import opened Rules

  /** The live set with membership of `c` flipped. */
  function Toggle(s: set<Cell>, c: Cell): (r: set<Cell>)
    ensures c in r <==> c !in s
    ensures r - {c} == s - {c}
  {
    if c in s then s - {c} else s + {c}
  }

  /** Live cells among the neighbours of `c` in the first k directions. */
  function CountLive(s: set<Cell>, c: Cell, k: nat): (n: nat)
    requires k <= |Directions|
    ensures n <= k
  {
    if k == 0 then 0
    else CountLive(s, c, k - 1) + (if Shift(c, Directions[k - 1]) in s then 1 else 0)
  }

  /** The number of live Moore neighbours of `c`; at most 8. */
  function NeighborCount(s: set<Cell>, c: Cell): (n: nat)
    ensures n <= 8
  {
    CountLive(s, c, |Directions|)
  }

  /** The eight Moore neighbours of `c`. */
  function Neighbors(c: Cell): set<Cell> {
    set d | d in Directions :: Shift(c, d)
  }

  /** The 3x3 square centred on `c`, the cell itself included. */
  function Square(c: Cell): set<Cell> {
    set dx, dy | -1 <= dx <= 1 && -1 <= dy <= 1 :: Shift(c, (dx, dy))
  }

  /** Every live cell together with its eight neighbours: the only cells whose
      next state the engine evaluates. */
  function CellsToCheck(s: set<Cell>): set<Cell> {
    set c, dx, dy | c in s && -1 <= dx <= 1 && -1 <= dy <= 1 :: Shift(c, (dx, dy))
  }

  /** The next live set: the checked cells that the rule keeps or makes
      alive, every count taken on the old set. */
  function Step(s: set<Cell>, r: RuleSet): set<Cell> {
    Survivors(s, r, CellsToCheck(s))
  }

  /** The cells among `cells` that are alive in the next generation of `s`. */
  function Survivors(s: set<Cell>, r: RuleSet, cells: set<Cell>): set<Cell> {
    set c | c in cells && NextState(r, c in s, NeighborCount(s, c))
  }

  // ---------------------------------------------------------------------
  // Properties of the neighbour count

  /** Live neighbours among the first k directions, as a set. */
  ghost function LiveAmong(s: set<Cell>, c: Cell, k: nat): set<Cell>
    requires k <= |Directions|
  {
    set j | 0 <= j < k && Shift(c, Directions[j]) in s :: Shift(c, Directions[j])
  }

  /** The k-th neighbour is new to LiveAmong: the offsets are distinct. */
  lemma LiveAmongStep(s: set<Cell>, c: Cell, k: nat)
    requires 0 < k <= |Directions|
    ensures var n := Shift(c, Directions[k - 1]);
      && n !in LiveAmong(s, c, k - 1)
      && LiveAmong(s, c, k) == LiveAmong(s, c, k - 1) + (if n in s then {n} else {})
  {
    var n := Shift(c, Directions[k - 1]);
    forall j | 0 <= j < k - 1
      ensures Shift(c, Directions[j]) != n
    {
      if Shift(c, Directions[j]) == n {
        DirectionsDistinct(j, k - 1);
      }
    }
    assert LiveAmong(s, c, k) == LiveAmong(s, c, k - 1) + (if n in s then {n} else {});
  }

  lemma {:induction false} CountLiveIsCardinality(s: set<Cell>, c: Cell, k: nat)
    requires k <= |Directions|
    ensures CountLive(s, c, k) == |LiveAmong(s, c, k)|
  {
    if k > 0 {
      CountLiveIsCardinality(s, c, k - 1);
      LiveAmongStep(s, c, k);
    }
  }

  /** The count is exactly the number of live cells among the eight
      neighbours. */
  lemma NeighborCountIsCardinality(s: set<Cell>, c: Cell)
    ensures NeighborCount(s, c) == |Neighbors(c) * s|
  {
    CountLiveIsCardinality(s, c, |Directions|);
    assert LiveAmong(s, c, |Directions|) == Neighbors(c) * s;
  }

  /** A cell is never its own neighbour. */
  lemma SelfNotNeighbor(c: Cell)
    ensures c !in Neighbors(c)
  {
    forall k | 0 <= k < |Directions|
      ensures Shift(c, Directions[k]) != c
    {
      DirectionFacts(k);
    }
  }

  /** The count ignores whether the cell itself is alive. */
  lemma {:induction false} CountIgnoresSelf(s: set<Cell>, c: Cell, k: nat)
    requires k <= |Directions|
    ensures CountLive(s + {c}, c, k) == CountLive(s - {c}, c, k)
  {
    if k > 0 {
      CountIgnoresSelf(s, c, k - 1);
      DirectionFacts(k - 1);
    }
  }

  /** A cell has no live neighbour exactly when its count is zero. */
  lemma CountZeroIffIsolated(s: set<Cell>, c: Cell)
    ensures NeighborCount(s, c) == 0 <==> Neighbors(c) * s == {}
  {
    NeighborCountIsCardinality(s, c);
  }

  // ---------------------------------------------------------------------
  // Properties of the cells to check and of a step

  /** A checked cell is alive or has a live neighbour. */
  lemma CheckedIsActive(s: set<Cell>, p: Cell)
    requires p in CellsToCheck(s)
    ensures p in s || Neighbors(p) * s != {}
  {
    var c, dx, dy :| c in s && -1 <= dx <= 1 && -1 <= dy <= 1 && p == Shift(c, (dx, dy));
    if (dx, dy) != (0, 0) {
      var k := Visited(-dx, -dy);
      assert Shift(p, Directions[k]) == c;
      assert c in Neighbors(p) * s;
    }
  }

  /** A live cell, or a cell with a live neighbour, is checked. */
  lemma ActiveIsChecked(s: set<Cell>, p: Cell)
    requires p in s || Neighbors(p) * s != {}
    ensures p in CellsToCheck(s)
  {
    if p in s {
      assert p == Shift(p, (0, 0));
    } else {
      var n :| n in Neighbors(p) * s;
      var k :| 0 <= k < |Directions| && n == Shift(p, Directions[k]);
      DirectionFacts(k);
      var (dx, dy) := Directions[k];
      assert p == Shift(n, (-dx, -dy));
    }
  }

  /** A cell is checked exactly when it is alive or has a live neighbour. */
  lemma CellsToCheckExactly(s: set<Cell>, p: Cell)
    ensures p in CellsToCheck(s) <==> p in s || Neighbors(p) * s != {}
  {
    if p in CellsToCheck(s) {
      CheckedIsActive(s, p);
    }
    if p in s || Neighbors(p) * s != {} {
      ActiveIsChecked(s, p);
    }
  }

  /** Every live cell is checked. */
  lemma LiveCellsAreChecked(s: set<Cell>)
    ensures s <= CellsToCheck(s)
  {
    forall p | p in s
      ensures p in CellsToCheck(s)
    {
      CellsToCheckExactly(s, p);
    }
  }

  /** Looking only at the checked cells loses nothing: as long as a dead cell
      with no neighbours is not born (reproductionNumber != 0), every cell of
      the plane is alive after a step exactly when the rule says so. */
  lemma StepIsPlaneRule(s: set<Cell>, r: RuleSet, p: Cell)
    requires r.reproductionNumber != 0
    ensures p in Step(s, r) <==> NextState(r, p in s, NeighborCount(s, p))
  {
    CellsToCheckExactly(s, p);
    CountZeroIffIsolated(s, p);
  }

  /** The exclusion above is needed: with a reproduction number of 0 the rule
      would give birth to a cell far from all life, but the step never looks
      there. One live cell at the origin and the cell (5, 5) show it. */
  lemma ZeroReproductionStaysLocal()
    ensures var s, r, p := {(0, 0)}, RuleSet(2, 3, 0), (5, 5);
      p !in Step(s, r) && NextState(r, p in s, NeighborCount(s, p))
  {
    var s, p := {(0, 0)}, (5, 5);
    forall d | d in Directions
      ensures Shift(p, d) !in s
    {
    }
    assert Neighbors(p) * s == {};
    CountZeroIffIsolated(s, p);
    CellsToCheckExactly(s, p);
  }

  /** A step only ever keeps or creates checked cells. */
  lemma StepWithinChecked(s: set<Cell>, r: RuleSet)
    ensures Step(s, r) <= CellsToCheck(s)
  {
  }

  /** An empty universe stays empty. */
  lemma EmptyStaysEmpty(r: RuleSet)
    ensures Step({}, r) == {}
  {
  }

  /** Toggling the same cell twice restores the live set. */
  lemma ToggleTwice(s: set<Cell>, c: Cell)
    ensures Toggle(Toggle(s, c), c) == s
  {
  }

  // ---------------------------------------------------------------------
  // Helpers for the loop that gathers the cells to check

  /** The nine offsets of the 3x3 square, in the order the nested loops of
      the cells-to-check scan visit them (dx outer, dy inner). */
  const Block: seq<Cell> :=
    [(-1, -1), (-1, 0), (-1, 1),
     (0, -1),  (0, 0),  (0, 1),
     (1, -1),  (1, 0),  (1, 1)]

  lemma BlockAt(dx: int, dy: int)
    requires -1 <= dx <= 1 && -1 <= dy <= 1
    ensures Block[3 * (dx + 1) + (dy + 1)] == (dx, dy)
  {
  }

  /** The part of Square(c) the nested loops have added after k visits. */
  ghost function Swept(c: Cell, k: nat): set<Cell>
    requires k <= |Block|
  {
    if k == 0 then {} else Swept(c, k - 1) + {Shift(c, Block[k - 1])}
  }

  lemma {:induction false} SweptHas(c: Cell, k: nat, j: nat)
    requires j < k <= |Block|
    ensures Shift(c, Block[j]) in Swept(c, k)
  {
    if j < k - 1 {
      SweptHas(c, k - 1, j);
    }
  }

  lemma {:induction false} SweptInSquare(c: Cell, k: nat)
    requires k <= |Block|
    ensures Swept(c, k) <= Square(c)
  {
    if k > 0 {
      SweptInSquare(c, k - 1);
      var (dx, dy) := Block[k - 1];
      assert Shift(c, (dx, dy)) in Square(c);
    }
  }

  /** After all nine visits the loops have added exactly the square. */
  lemma SweptAll(c: Cell)
    ensures Swept(c, |Block|) == Square(c)
  {
    SweptInSquare(c, |Block|);
    forall q | q in Square(c)
      ensures q in Swept(c, |Block|)
    {
      var a, b :| -1 <= a <= 1 && -1 <= b <= 1 && q == Shift(c, (a, b));
      BlockAt(a, b);
      SweptHas(c, |Block|, 3 * (a + 1) + (b + 1));
    }
  }

  lemma CellsToCheckAdd(done: set<Cell>, c: Cell)
    ensures CellsToCheck(done + {c}) == CellsToCheck(done) + Square(c)
  {
    forall p | p in Square(c)
      ensures p in CellsToCheck(done + {c})
    {
      var dx, dy :| -1 <= dx <= 1 && -1 <= dy <= 1 && p == Shift(c, (dx, dy));
    }
    forall p | p in CellsToCheck(done + {c})
      ensures p in CellsToCheck(done) + Square(c)
    {
      var e, dx, dy :| e in done + {c} && -1 <= dx <= 1 && -1 <= dy <= 1 && p == Shift(e, (dx, dy));
    }
  }

  lemma SurvivorsAdd(s: set<Cell>, r: RuleSet, cells: set<Cell>, c: Cell)
    ensures Survivors(s, r, cells + {c})
         == Survivors(s, r, cells) + (if NextState(r, c in s, NeighborCount(s, c)) then {c} else {})
  {
  }

  /** The engine: the live set, a generation counter and three mutable rule
      thresholds (Conway's by default). */
  class InfiniteGameOfLife {
    var liveCells: set<Cell>
    var generation: nat
    var underpopulationLimit: int
    var overpopulationLimit: int
    var reproductionNumber: int

    /** The thresholds as one rule value. */
    function Thresholds(): RuleSet
      reads this`underpopulationLimit, this`overpopulationLimit, this`reproductionNumber
    {
      RuleSet(underpopulationLimit, overpopulationLimit, reproductionNumber)
    }

    /** An empty universe at generation 0 with Conway's rule. */
    constructor ()
      ensures liveCells == {} && generation == 0 && Thresholds() == Conway
    {
      liveCells := {};
      generation := 0;
      underpopulationLimit := 2;
      overpopulationLimit := 3;
      reproductionNumber := 3;
    }

    /** Flip (x, y) between alive and dead; every other cell keeps its
        state. */
    method ToggleCell(x: int, y: int)
      modifies this`liveCells
      ensures (x, y) in liveCells <==> (x, y) !in old(liveCells)
      ensures liveCells - {(x, y)} == old(liveCells) - {(x, y)}
      ensures liveCells == Toggle(old(liveCells), (x, y))
    {
      if (x, y) in liveCells {
        liveCells := liveCells - {(x, y)};
      } else {
        liveCells := liveCells + {(x, y)};
      }
    }

    /** Count the live neighbours of (x, y) with nested dx/dy loops, skipping
        the cell itself. */
    method CountNeighbors(x: int, y: int) returns (count: nat)
      ensures count == NeighborCount(liveCells, (x, y))
      ensures count == |Neighbors((x, y)) * liveCells|
    {
      count := 0;
      for dx := -1 to 2
        invariant count == CountLive(liveCells, (x, y), Visited(dx, -1))
      {
        for dy := -1 to 2
          invariant count == CountLive(liveCells, (x, y), Visited(dx, dy))
        {
          if dx == 0 && dy == 0 {
            continue;
          }
          if (x + dx, y + dy) in liveCells {
            count := count + 1;
          }
        }
      }
      NeighborCountIsCardinality(liveCells, (x, y));
    }

    /** Add the 3x3 square around `c` to `cells`, scanning dx outer and dy
        inner. */
    static method AddSquare(cells: set<Cell>, c: Cell) returns (r: set<Cell>)
      ensures r == cells + Square(c)
    {
      r := cells;
      for dx := -1 to 2
        invariant r == cells + Swept(c, 3 * (dx + 1))
      {
        for dy := -1 to 2
          invariant r == cells + Swept(c, 3 * (dx + 1) + (dy + 1))
        {
          BlockAt(dx, dy);
          r := r + {Shift(c, (dx, dy))};
        }
      }
      SweptAll(c);
    }

    /** Gather every live cell and its eight neighbours. */
    method GetCellsToCheck() returns (cellsToCheck: set<Cell>)
      ensures cellsToCheck == CellsToCheck(liveCells)
    {
      cellsToCheck := {};
      var remaining := liveCells;
      ghost var done: set<Cell> := {};
      while remaining != {}
        invariant done !! remaining && done + remaining == liveCells
        invariant cellsToCheck == CellsToCheck(done)
        decreases remaining
      {
        var c :| c in remaining;
        cellsToCheck := AddSquare(cellsToCheck, c);
        CellsToCheckAdd(done, c);
        done := done + {c};
        remaining := remaining - {c};
      }
      assert done == liveCells;
    }

    /** Whether (x, y) is alive in the next generation: its neighbours are
        counted on the current live set and the thresholds applied. */
    method Evaluate(x: int, y: int) returns (alive: bool)
      ensures alive == NextState(Thresholds(), (x, y) in liveCells, NeighborCount(liveCells, (x, y)))
    {
      var neighbors := CountNeighbors(x, y);
      alive := false;
      if (x, y) in liveCells {
        if underpopulationLimit <= neighbors <= overpopulationLimit {
          alive := true;
        }
      } else {
        if neighbors == reproductionNumber {
          alive := true;
        }
      }
    }

    /** Advance one generation over the cells to check. An empty universe is
        left alone, generation counter included. */
    method NextGeneration()
      modifies this`liveCells, this`generation
      ensures old(liveCells) == {} ==> liveCells == {} && generation == old(generation)
      ensures old(liveCells) != {} ==>
                liveCells == Step(old(liveCells), Thresholds()) && generation == old(generation) + 1
    {
      if liveCells == {} {
        return;
      }
      var newCells: set<Cell> := {};
      var cellsToCheck := GetCellsToCheck();
      ghost var live, rules := liveCells, Thresholds();
      var remaining := cellsToCheck;
      ghost var done: set<Cell> := {};
      while remaining != {}
        invariant liveCells == live && generation == old(generation)
        invariant done !! remaining && done + remaining == cellsToCheck
        invariant newCells == Survivors(live, rules, done)
        decreases remaining
      {
        var c :| c in remaining;
        var x, y := c.0, c.1;
        var alive := Evaluate(x, y);
        SurvivorsAdd(live, rules, done, c);
        if alive {
          newCells := newCells + {(x, y)};
        }
        done := done + {c};
        remaining := remaining - {c};
      }
      assert done == cellsToCheck;
      assert newCells == Step(live, rules);
      liveCells := newCells;
      generation := generation + 1;
      assert live == old(liveCells) && rules == Thresholds();
    }

    /** Replace the three thresholds, unchecked; cells and generation are
        untouched. */
    method SetCustomRules(underpop: int, overpop: int, repro: int)
      modifies this`underpopulationLimit, this`overpopulationLimit, this`reproductionNumber
      ensures Thresholds() == RuleSet(underpop, overpop, repro)
    {
      underpopulationLimit := underpop;
      overpopulationLimit := overpop;
      reproductionNumber := repro;
    }

    /** Empty the universe and reset the generation; the thresholds stay. */
    method Clear()
      modifies this`liveCells, this`generation
      ensures liveCells == {} && generation == 0
    {
      liveCells := {};
      generation := 0;
    }
  }
}
