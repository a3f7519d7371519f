/** How the two engines relate: a non-wrapping bounded grid, read as the set
    of its live coordinates, is counted, toggled and stepped by the sparse
    engine exactly as by the bounded one, for every cell inside the grid. */
module Agreement {
  import opened Moore
  import Rules
  import BoundedGrid
  import InfiniteGrid

  /** The live coordinates of a bounded grid, as (x, y) pairs. */
  function LiveSet(g: BoundedGrid.Grid, width: nat, height: nat): set<Cell>
    requires BoundedGrid.IsGrid(g, width, height)
  {
    set x, y | 0 <= x < width && 0 <= y < height && g[y][x] :: (x, y)
  }

  /** A coordinate is in the live set exactly when it lies in the grid and
      its cell is alive. */
  lemma InLiveSet(g: BoundedGrid.Grid, width: nat, height: nat, x: int, y: int)
    requires BoundedGrid.IsGrid(g, width, height)
    ensures (x, y) in LiveSet(g, width, height) <==> 0 <= x < width && 0 <= y < height && g[y][x]
  {
    if 0 <= x < width && 0 <= y < height && g[y][x] {
      assert (x, y) in LiveSet(g, width, height);
    }
  }

  /** A non-wrapping probe reads exactly membership in the live set. */
  lemma ProbeIsMembership(g: BoundedGrid.Grid, width: nat, height: nat, nx: int, ny: int)
    requires BoundedGrid.IsGrid(g, width, height)
    ensures BoundedGrid.Probe(g, width, height, false, nx, ny) <==> (nx, ny) in LiveSet(g, width, height)
  {
    InLiveSet(g, width, height, nx, ny);
  }

  /** The two counts agree on the first k directions whenever each of those
      probes reads the same as membership in `s`. */
  lemma {:induction false} CountsAgreeUpTo(g: BoundedGrid.Grid, width: nat, height: nat, s: set<Cell>, x: int, y: int, k: nat)
    requires BoundedGrid.IsGrid(g, width, height) && k <= |Directions|
    requires forall j :: 0 <= j < k ==>
      (BoundedGrid.Probe(g, width, height, false, x + Directions[j].0, y + Directions[j].1)
       <==> Shift((x, y), Directions[j]) in s)
    ensures BoundedGrid.CountFirst(g, width, height, false, x, y, k) == InfiniteGrid.CountLive(s, (x, y), k)
  {
    if k > 0 {
      CountsAgreeUpTo(g, width, height, s, x, y, k - 1);
    }
  }

  /** Without wrapping, the bounded count of any (x, y) is the sparse count
      on the grid's live set: cells beyond the edge are simply dead. */
  lemma CountsAgree(g: BoundedGrid.Grid, width: nat, height: nat, x: int, y: int)
    requires BoundedGrid.IsGrid(g, width, height)
    ensures BoundedGrid.NeighborCount(g, width, height, false, x, y)
         == InfiniteGrid.NeighborCount(LiveSet(g, width, height), (x, y))
  {
    ProbesAreMembership(g, width, height, x, y);
    CountsAgreeUpTo(g, width, height, LiveSet(g, width, height), x, y, |Directions|);
  }

  lemma ProbesAreMembership(g: BoundedGrid.Grid, width: nat, height: nat, x: int, y: int)
    requires BoundedGrid.IsGrid(g, width, height)
    ensures forall j :: 0 <= j < |Directions| ==>
      (BoundedGrid.Probe(g, width, height, false, x + Directions[j].0, y + Directions[j].1)
       <==> Shift((x, y), Directions[j]) in LiveSet(g, width, height))
  {
    forall j | 0 <= j < |Directions|
      ensures BoundedGrid.Probe(g, width, height, false, x + Directions[j].0, y + Directions[j].1)
              <==> Shift((x, y), Directions[j]) in LiveSet(g, width, height)
    {
      var d := Directions[j];
      ProbeIsMembership(g, width, height, x + d.0, y + d.1);
      assert Shift((x, y), d) == (x + d.0, y + d.1);
    }
  }

  /** Toggling a cell of the grid toggles that coordinate in the live set. */
  lemma TogglesAgree(g: BoundedGrid.Grid, width: nat, height: nat, x: nat, y: nat)
    requires BoundedGrid.IsGrid(g, width, height) && x < width && y < height
    ensures BoundedGrid.IsGrid(BoundedGrid.Toggled(g, x, y), width, height)
    ensures LiveSet(BoundedGrid.Toggled(g, x, y), width, height)
         == InfiniteGrid.Toggle(LiveSet(g, width, height), (x, y))
  {
    var t := BoundedGrid.Toggled(g, x, y);
    assert BoundedGrid.IsGrid(t, width, height);
    var a, b := LiveSet(t, width, height), InfiniteGrid.Toggle(LiveSet(g, width, height), (x, y));
    forall p | p in a || p in b
      ensures p in a <==> p in b
    {
      InLiveSet(t, width, height, p.0, p.1);
      InLiveSet(g, width, height, p.0, p.1);
    }
  }

  /** Inside the grid, one non-wrapping bounded step and one sparse step with
      Conway's thresholds make the same cells alive. */
  lemma StepsAgree(g: BoundedGrid.Grid, width: nat, height: nat, x: nat, y: nat)
    requires BoundedGrid.IsGrid(g, width, height) && x < width && y < height
    ensures BoundedGrid.NextGrid(g, width, height, false)[y][x]
        <==> (x, y) in InfiniteGrid.Step(LiveSet(g, width, height), Rules.Conway)
  {
    var s := LiveSet(g, width, height);
    var n := BoundedGrid.NeighborCount(g, width, height, false, x, y);
    assert BoundedGrid.NextGrid(g, width, height, false)[y][x] == BoundedGrid.Lives(g[y][x], n);
    CountsAgree(g, width, height, x, y);
    InLiveSet(g, width, height, x, y);
    BoundedGrid.LivesIsConway(g[y][x], n);
    InfiniteGrid.StepIsPlaneRule(s, Rules.Conway, (x, y));
  }

  /** The whole bounded step, read as a live set, is the sparse step cut
      down to the grid. */
  lemma StepsAgreeOnGrid(g: BoundedGrid.Grid, width: nat, height: nat)
    requires BoundedGrid.IsGrid(g, width, height)
    ensures LiveSet(BoundedGrid.NextGrid(g, width, height, false), width, height)
         == set p | p in InfiniteGrid.Step(LiveSet(g, width, height), Rules.Conway)
                    && 0 <= p.0 < width && 0 <= p.1 < height
  {
    NextLiveEverywhere(g, width, height);
  }

  lemma NextLiveEverywhere(g: BoundedGrid.Grid, width: nat, height: nat)
    requires BoundedGrid.IsGrid(g, width, height)
    ensures forall p ::
              p in LiveSet(BoundedGrid.NextGrid(g, width, height, false), width, height)
              <==> p in InfiniteGrid.Step(LiveSet(g, width, height), Rules.Conway) && 0 <= p.0 < width && 0 <= p.1 < height
  {
    forall p
      ensures p in LiveSet(BoundedGrid.NextGrid(g, width, height, false), width, height)
        <==> p in InfiniteGrid.Step(LiveSet(g, width, height), Rules.Conway) && 0 <= p.0 < width && 0 <= p.1 < height
    {
      NextLiveAt(g, width, height, p);
    }
  }

  lemma NextLiveAt(g: BoundedGrid.Grid, width: nat, height: nat, p: Cell)
    requires BoundedGrid.IsGrid(g, width, height)
    ensures p in LiveSet(BoundedGrid.NextGrid(g, width, height, false), width, height)
        <==> p in InfiniteGrid.Step(LiveSet(g, width, height), Rules.Conway) && 0 <= p.0 < width && 0 <= p.1 < height
  {
    InLiveSet(BoundedGrid.NextGrid(g, width, height, false), width, height, p.0, p.1);
    if 0 <= p.0 < width && 0 <= p.1 < height {
      StepsAgree(g, width, height, p.0, p.1);
    }
  }

  /** A sparse step of a grid's live set only makes cells alive within one
      cell of the grid: the bounded engine, which has no cells there, can
      differ from the sparse one only on that one-cell border. */
  lemma StepStaysNearGrid(g: BoundedGrid.Grid, width: nat, height: nat, p: Cell)
    requires BoundedGrid.IsGrid(g, width, height)
    requires p in InfiniteGrid.Step(LiveSet(g, width, height), Rules.Conway)
    ensures -1 <= p.0 <= width && -1 <= p.1 <= height
  {
    var s := LiveSet(g, width, height);
    assert p in InfiniteGrid.CellsToCheck(s);
    var c, dx, dy :| c in s && -1 <= dx <= 1 && -1 <= dy <= 1 && p == Shift(c, (dx, dy));
    InLiveSet(g, width, height, c.0, c.1);
  }
}
