/**
 * The automaton engine as pure functions over grid snapshots: the
 * neighbour count with its walls-beyond-the-edge policy, the fixed
 * threshold rule, the synchronous whole-grid step, and the bounded
 * iterate-until-stable schedule of the driver.
 */
module Automaton {
  import opened Tiles

  /** The rule's threshold: more wall neighbours than this gives a wall. */
  const Threshold := 4

  /** True when the position (nx, ny) lies outside the grid. */
  predicate Outside(g: Grid, nx: int, ny: int) {
    nx < 0 || ny < 0 || nx >= g.width || ny >= g.height
  }

  /** 1 when the position (nx, ny) counts as a wall: outside the grid, or a wall tile. */
  function WallAt(g: Grid, nx: int, ny: int): (c: nat)
    requires g.Valid()
  {
    if Outside(g, nx, ny) then 1
    else if g.At(nx, ny) == Wall then 1
    else 0
  }

  /** 1 when the position (nx, ny) lies outside the grid. */
  function OutsideAt(g: Grid, nx: int, ny: int): (c: nat) {
    if Outside(g, nx, ny) then 1 else 0
  }

  /**
   * The number of walls among the eight cells of the Moore neighbourhood
   * of (x, y), the centre excluded; positions outside the grid count as
   * walls.
   */
  function NeighborWalls(g: Grid, x: int, y: int): (n: nat)
    requires g.Valid()
    ensures n <= 8
  {
    WallAt(g, x - 1, y - 1) + WallAt(g, x, y - 1) + WallAt(g, x + 1, y - 1) +
    WallAt(g, x - 1, y)     +                       WallAt(g, x + 1, y)     +
    WallAt(g, x - 1, y + 1) + WallAt(g, x, y + 1) + WallAt(g, x + 1, y + 1)
  }

  /** The number of positions of the Moore neighbourhood of (x, y) that lie outside the grid. */
  function OutsideNeighbors(g: Grid, x: int, y: int): (n: nat) {
    OutsideAt(g, x - 1, y - 1) + OutsideAt(g, x, y - 1) + OutsideAt(g, x + 1, y - 1) +
    OutsideAt(g, x - 1, y)     +                          OutsideAt(g, x + 1, y)     +
    OutsideAt(g, x - 1, y + 1) + OutsideAt(g, x, y + 1) + OutsideAt(g, x + 1, y + 1)
  }

  /** 1 when the position (nx, ny) is inside the grid and holds a wall. */
  function InsideWallAt(g: Grid, nx: int, ny: int): (c: nat)
    requires g.Valid()
  {
    if !Outside(g, nx, ny) && g.At(nx, ny) == Wall then 1 else 0
  }

  /** The number of walls among the neighbours of (x, y) that lie inside the grid. */
  function InsideWalls(g: Grid, x: int, y: int): (n: nat)
    requires g.Valid()
  {
    InsideWallAt(g, x - 1, y - 1) + InsideWallAt(g, x, y - 1) + InsideWallAt(g, x + 1, y - 1) +
    InsideWallAt(g, x - 1, y)     +                             InsideWallAt(g, x + 1, y)     +
    InsideWallAt(g, x - 1, y + 1) + InsideWallAt(g, x, y + 1) + InsideWallAt(g, x + 1, y + 1)
  }

  /**
   * Every out-of-bounds neighbour position adds one to the wall count: the
   * count is the outside positions plus the walls among the inside ones.
   */
  lemma OutsideCountsAsWall(g: Grid, x: int, y: int)
    requires g.Valid()
    ensures NeighborWalls(g, x, y) == OutsideNeighbors(g, x, y) + InsideWalls(g, x, y)
    ensures NeighborWalls(g, x, y) >= OutsideNeighbors(g, x, y)
  {
  }

  /** On a 1x1 grid all eight neighbours of the only cell lie outside, so its count is 8. */
  lemma SingleCellSeesEightWalls(g: Grid)
    requires g.Valid() && g.width == 1 && g.height == 1
    ensures OutsideNeighbors(g, 0, 0) == 8
    ensures NeighborWalls(g, 0, 0) == 8
  {
  }

  /**
   * At the corner (0, 0) of a grid at least 2x2, five neighbour positions
   * lie outside and three inside, so the count is 5 plus the walls among
   * (1, 0), (0, 1) and (1, 1).
   */
  lemma CornerHasFiveOutsideNeighbors(g: Grid)
    requires g.Valid() && g.width >= 2 && g.height >= 2
    ensures OutsideNeighbors(g, 0, 0) == 5
    ensures NeighborWalls(g, 0, 0) == 5 + WallAt(g, 1, 0) + WallAt(g, 0, 1) + WallAt(g, 1, 1)
  {
  }

  /**
   * The rule for one cell, read off the grid before the step: more than
   * four wall neighbours gives a wall, fewer than four a floor, exactly
   * four keeps the cell's current tile.
   */
  function NextTile(g: Grid, x: int, y: int): (t: Tile)
    requires g.Valid() && g.InBounds(x, y)
    ensures t == Wall <==> NeighborWalls(g, x, y) > Threshold || (NeighborWalls(g, x, y) == Threshold && g.At(x, y) == Wall)
  {
    var n := NeighborWalls(g, x, y);
    if n > Threshold then Wall
    else if n < Threshold then Floor
    else g.At(x, y)
  }

  /** True when the rule changes the tile at (x, y). */
  predicate ChangesAt(g: Grid, x: int, y: int)
    requires g.Valid() && g.InBounds(x, y)
  {
    NextTile(g, x, y) != g.At(x, y)
  }

  /**
   * One synchronous step: every cell of the result is the rule applied to
   * the grid as it was before the step, so no cell sees another's new
   * value. The dimensions do not change.
   */
  function StepSpec(g: Grid): (r: Grid)
    requires g.Valid()
    ensures r.Valid() && r.width == g.width && r.height == g.height
  {
    Grid(g.width, g.height, seq(g.height, y requires 0 <= y < g.height => seq(g.width, x requires 0 <= x < g.width => NextTile(g, x, y))))
  }

  /** A step changes the grid exactly when the rule changes at least one cell. */
  lemma {:induction false} StepChangesIff(g: Grid)
    requires g.Valid()
    ensures StepSpec(g) != g <==> exists x, y :: g.InBounds(x, y) && ChangesAt(g, x, y)
  {
    var r := StepSpec(g);
    if r != g {
      if forall x, y :: g.InBounds(x, y) ==> !ChangesAt(g, x, y) {
        forall x, y | r.InBounds(x, y)
          ensures r.At(x, y) == g.At(x, y)
        {
          assert !ChangesAt(g, x, y);
        }
        GridExt(r, g);
        assert false;
      }
    } else {
      forall x, y | g.InBounds(x, y)
        ensures !ChangesAt(g, x, y)
      {
        assert r.At(x, y) == NextTile(g, x, y);
      }
    }
  }

  /** In an all-wall grid every neighbour counts as a wall, so every count is 8. */
  lemma AllWallsCountEight(width: nat, height: nat, x: int, y: int)
    ensures NeighborWalls(AllWalls(width, height), x, y) == 8
  {
  }

  /** An all-wall grid is a fixed point of the step. */
  lemma {:induction false} AllWallsFixedPoint(width: nat, height: nat)
    ensures StepSpec(AllWalls(width, height)) == AllWalls(width, height)
  {
    var g := AllWalls(width, height);
    var r := StepSpec(g);
    forall x, y | r.InBounds(x, y)
      ensures r.At(x, y) == g.At(x, y)
    {
      AllWallsCountEight(width, height, x, y);
    }
    GridExt(r, g);
  }

  /**
   * The four corner cells always see at least five walls (the outside
   * positions), so after any step every corner is a wall.
   */
  lemma CornersBecomeWalls(g: Grid)
    requires g.Valid() && g.width >= 1 && g.height >= 1
    ensures NeighborWalls(g, 0, 0) >= 5 && NeighborWalls(g, g.width - 1, 0) >= 5
    ensures NeighborWalls(g, 0, g.height - 1) >= 5 && NeighborWalls(g, g.width - 1, g.height - 1) >= 5
    ensures StepSpec(g).At(0, 0) == Wall
    ensures StepSpec(g).At(g.width - 1, 0) == Wall
    ensures StepSpec(g).At(0, g.height - 1) == Wall
    ensures StepSpec(g).At(g.width - 1, g.height - 1) == Wall
  {
  }

  /** In an all-floor grid the only walls a cell sees are the outside positions. */
  lemma AllFloorCountsOutside(g: Grid, x: int, y: int)
    requires g.Valid() && forall i, j :: g.InBounds(i, j) ==> g.At(i, j) == Floor
    ensures NeighborWalls(g, x, y) == OutsideNeighbors(g, x, y)
  {
  }

  /**
   * A 3x3 all-floor grid: the corners see five outside walls and become
   * walls, the edge cells see three and the centre none, so they stay
   * floors.
   */
  lemma {:induction false} ThreeByThreeFloorStep(g: Grid)
    requires g == Grid(3, 3, [[Floor, Floor, Floor], [Floor, Floor, Floor], [Floor, Floor, Floor]])
    ensures StepSpec(g) == Grid(3, 3, [[Wall, Floor, Wall], [Floor, Floor, Floor], [Wall, Floor, Wall]])
  {
    var e := Grid(3, 3, [[Wall, Floor, Wall], [Floor, Floor, Floor], [Wall, Floor, Wall]]);
    var r := StepSpec(g);
    assert g.Valid();
    forall x, y | r.InBounds(x, y)
      ensures r.At(x, y) == e.At(x, y)
    {
      AllFloorCountsOutside(g, x, y);
      assert r.At(x, y) == NextTile(g, x, y);
    }
    GridExt(r, e);
  }

  /**
   * In a grid whose only walls are at `w0` and `w1`, a cell
   * sees the outside positions plus those listed walls that are its
   * neighbours.
   */
  lemma FewWallsCount(g: Grid, w0: (int, int), w1: (int, int), x: int, y: int)
    requires g.Valid()
    requires forall i, j :: g.InBounds(i, j) ==> (g.At(i, j) == Wall <==> (i == w0.0 && j == w0.1) || (i == w1.0 && j == w1.1))
    requires g.InBounds(w0.0, w0.1) && g.InBounds(w1.0, w1.1)
    ensures NeighborWalls(g, x, y) == OutsideNeighbors(g, x, y)
      + (if IsNeighbor(w0, x, y) then 1 else 0)
      + (if w1 != w0 && IsNeighbor(w1, x, y) then 1 else 0)
  {
  }

  /** True when the position `p` is one of the eight neighbours of (x, y). */
  predicate IsNeighbor(p: (int, int), x: int, y: int) {
    x - 1 <= p.0 <= x + 1 && y - 1 <= p.1 <= y + 1 && p != (x, y)
  }

  /**
   * A 3x3 grid whose only wall is (0, 1). The step turns exactly the four
   * corners into walls: (0, 0) becomes a wall, but (1, 0) is judged on the
   * old grid, where it sees exactly four walls, so it stays a floor. Had
   * (0, 0) already been updated in place (the grid `inPlace`, walls at
   * (0, 0) and (0, 1)), (1, 0) would see five walls and become a wall.
   */
  lemma {:induction false} SynchronousStepExample(g: Grid, inPlace: Grid)
    requires g.Valid() && g.width == 3 && g.height == 3
    requires forall i, j :: g.InBounds(i, j) ==> (g.At(i, j) == Wall <==> i == 0 && j == 1)
    requires inPlace.Valid() && inPlace.width == 3 && inPlace.height == 3
    requires forall i, j :: inPlace.InBounds(i, j) ==> (inPlace.At(i, j) == Wall <==> i == 0 && (j == 0 || j == 1))
    ensures forall x, y :: g.InBounds(x, y) ==> (StepSpec(g).At(x, y) == Wall <==> (x == 0 || x == 2) && (y == 0 || y == 2))
    ensures NeighborWalls(g, 1, 0) == 4 && StepSpec(g).At(1, 0) == Floor
    ensures NeighborWalls(inPlace, 1, 0) == 5 && NextTile(inPlace, 1, 0) == Wall
  {
    var r := StepSpec(g);
    forall x, y | g.InBounds(x, y)
      ensures r.At(x, y) == Wall <==> (x == 0 || x == 2) && (y == 0 || y == 2)
    {
      FewWallsCount(g, (0, 1), (0, 1), x, y);
      assert r.At(x, y) == NextTile(g, x, y);
    }
    FewWallsCount(g, (0, 1), (0, 1), 1, 0);
    FewWallsCount(inPlace, (0, 0), (0, 1), 1, 0);
  }

  /** The grid after `n` synchronous steps. */
  function Iterate(g: Grid, n: nat): (r: Grid)
    requires g.Valid()
    ensures r.Valid() && r.width == g.width && r.height == g.height
  {
    if n == 0 then g else StepSpec(Iterate(g, n - 1))
  }

  /** Stepping first and then iterating `n` times is iterating `n + 1` times. */
  lemma {:induction false} IterateShift(g: Grid, n: nat)
    requires g.Valid()
    ensures Iterate(StepSpec(g), n) == Iterate(g, n + 1)
  {
    if n > 0 {
      IterateShift(g, n - 1);
    }
  }

  /** Once a grid is a fixed point, any number of further steps leaves it as it is. */
  lemma {:induction false} FixedPointStays(g: Grid, n: nat)
    requires g.Valid() && StepSpec(g) == g
    ensures Iterate(g, n) == g
  {
    if n > 0 {
      FixedPointStays(g, n - 1);
    }
  }

  /**
   * The number of steps the driver performs with at most `maxIterations`
   * steps: it stops right after the first step that changes nothing.
   */
  function StepsTaken(g: Grid, maxIterations: nat): (k: nat)
    requires g.Valid()
    ensures k <= maxIterations
    ensures k == 0 <==> maxIterations == 0
    decreases maxIterations
  {
    if maxIterations == 0 then 0
    else if StepSpec(g) == g then 1
    else 1 + StepsTaken(StepSpec(g), maxIterations - 1)
  }

  /** One step before the last one the driver performed: it changed the grid. */
  lemma {:induction false} StepBeforeLastChanged(g: Grid, maxIterations: nat, i: nat)
    requires g.Valid() && i + 1 < StepsTaken(g, maxIterations)
    decreases i
    ensures Iterate(g, i + 1) != Iterate(g, i)
  {
    var s := StepSpec(g);
    assert StepSpec(g) != g && StepsTaken(g, maxIterations) == 1 + StepsTaken(s, maxIterations - 1);
    if i > 0 {
      StepBeforeLastChanged(s, maxIterations - 1, i - 1);
      IterateShift(g, i);
      IterateShift(g, i - 1);
    }
  }

  /** Every step the driver performs before its last one changes the grid. */
  lemma StepsTakenEarlierStepsChanged(g: Grid, maxIterations: nat)
    requires g.Valid()
    ensures forall i :: 0 <= i < StepsTaken(g, maxIterations) - 1 ==> Iterate(g, i + 1) != Iterate(g, i)
  {
    forall i | 0 <= i < StepsTaken(g, maxIterations) - 1
      ensures Iterate(g, i + 1) != Iterate(g, i)
    {
      StepBeforeLastChanged(g, maxIterations, i);
    }
  }

  /**
   * When the driver stops before `maxIterations` steps, its last step
   * changed nothing and the grid it leaves is a fixed point.
   */
  lemma {:induction false} StepsTakenEndsAtFixedPoint(g: Grid, maxIterations: nat)
    requires g.Valid() && StepsTaken(g, maxIterations) < maxIterations
    decreases maxIterations
    ensures var k := StepsTaken(g, maxIterations);
      0 < k && Iterate(g, k) == Iterate(g, k - 1) && StepSpec(Iterate(g, k)) == Iterate(g, k)
  {
    var k := StepsTaken(g, maxIterations);
    if StepSpec(g) == g {
      assert k == 1 && Iterate(g, 1) == g;
    } else {
      var s := StepSpec(g);
      assert k == 1 + StepsTaken(s, maxIterations - 1);
      StepsTakenEndsAtFixedPoint(s, maxIterations - 1);
      IterateShift(g, k - 1);
      IterateShift(g, k - 2);
    }
  }

  /**
   * A grid that is already stable costs the driver exactly one step, the
   * one that reports no change.
   */
  lemma StableGridTakesOneStep(g: Grid, maxIterations: nat)
    requires g.Valid() && StepSpec(g) == g && maxIterations > 0
    ensures StepsTaken(g, maxIterations) == 1
  {
  }

  /**
   * Seeding with every draw below the wall probability and running the
   * driver: one step, after which the grid is still all walls.
   */
  lemma {:induction false} AllWallSeedConvergesAtOnce(width: nat, height: nat, wallProbability: real, draw: (int, int) -> real, maxIterations: nat)
    requires forall x, y :: 0 <= x < width && 0 <= y < height ==> draw(x, y) < wallProbability
    requires maxIterations > 0
    ensures StepsTaken(Seeded(width, height, wallProbability, draw), maxIterations) == 1
    ensures Iterate(Seeded(width, height, wallProbability, draw), 1) == AllWalls(width, height)
  {
    CertainWallsSeedAllWalls(width, height, wallProbability, draw);
    AllWallsFixedPoint(width, height);
  }

  /**
   * Helper for the imperative step: some cell before (x, y) in row-major
   * order, that is in a row above `y` or left of `x` in row `y`, is
   * changed by the rule.
   */
  ghost predicate ChangedBefore(g: Grid, x: int, y: int)
    requires g.Valid()
  {
    exists j, i :: g.InBounds(i, j) && (j < y || (j == y && i < x)) && ChangesAt(g, i, j)
  }

  /** Moving one cell on in row-major order adds that cell to the prefix. */
  lemma ChangedBeforeNext(g: Grid, x: int, y: int)
    requires g.Valid() && g.InBounds(x, y)
    ensures ChangedBefore(g, x + 1, y) <==> ChangedBefore(g, x, y) || ChangesAt(g, x, y)
  {
  }

  /** The end of one row is the start of the next. */
  lemma ChangedBeforeRowEnd(g: Grid, y: int)
    requires g.Valid()
    ensures ChangedBefore(g, g.width, y) <==> ChangedBefore(g, 0, y + 1)
  {
  }

  /** After the last row the prefix covers the whole grid. */
  lemma ChangedBeforeAll(g: Grid)
    requires g.Valid()
    ensures ChangedBefore(g, 0, g.height) <==> exists x, y :: g.InBounds(x, y) && ChangesAt(g, x, y)
  {
  }

  /**
   * Helper for the imperative counter: the walls among the offsets
   * (dx, dy) with -1 <= dx < upto of row `dy`, the centre excluded.
   */
  ghost function RowWalls(g: Grid, x: int, y: int, dy: int, upto: int): nat
    requires g.Valid() && -1 <= upto <= 2
    decreases upto + 1
  {
    if upto == -1 then 0
    else RowWalls(g, x, y, dy, upto - 1) + (if upto - 1 == 0 && dy == 0 then 0 else WallAt(g, x + upto - 1, y + dy))
  }

  /** Helper for the imperative counter: the walls of the full rows -1 <= dy < upto. */
  ghost function RowsWalls(g: Grid, x: int, y: int, upto: int): nat
    requires g.Valid() && -1 <= upto <= 2
    decreases upto + 1
  {
    if upto == -1 then 0
    else RowsWalls(g, x, y, upto - 1) + RowWalls(g, x, y, upto - 1, 2)
  }

  /** All three rows of offsets together make the neighbour count. */
  lemma RowsWallsComplete(g: Grid, x: int, y: int)
    requires g.Valid()
    ensures RowsWalls(g, x, y, 2) == NeighborWalls(g, x, y)
  {
  }
}
