/**
 * The grid model of the cave generator: the two tile states and a
 * rectangular grid of tiles indexed `tiles[y][x]` (row `y`, column `x`).
 */
module Tiles {

  /** The state of one cell. */
  datatype Tile = Wall | Floor

  /**
   * A value snapshot of a dungeon: its dimensions and its rows of tiles.
   * Any dimensions are admitted, zero included.
   */
  datatype Grid = Grid(width: nat, height: nat, tiles: seq<seq<Tile>>)
  {
    /** The shape invariant: `height` rows, each holding `width` tiles. */
    predicate Valid() {
      |tiles| == height && forall y :: 0 <= y < |tiles| ==> |tiles[y]| == width
    }

    /** True when (x, y) names a cell of the grid. */
    predicate InBounds(x: int, y: int) {
      0 <= x < width && 0 <= y < height
    }

    /** The tile at an in-bounds position. */
    function At(x: int, y: int): (t: Tile)
      requires Valid() && InBounds(x, y)
    {
      tiles[y][x]
    }
  }

  /** Two grids of the same dimensions that agree on every cell are equal. */
  lemma {:induction false} GridExt(g: Grid, h: Grid)
    requires g.Valid() && h.Valid()
    requires g.width == h.width && g.height == h.height
    requires forall x, y :: g.InBounds(x, y) ==> g.At(x, y) == h.At(x, y)
    ensures g == h
  {
    forall y | 0 <= y < g.height
      ensures g.tiles[y] == h.tiles[y]
    {
      forall x | 0 <= x < g.width
        ensures g.tiles[y][x] == h.tiles[y][x]
      {
        assert g.InBounds(x, y) && g.At(x, y) == h.At(x, y);
      }
    }
  }

  /**
   * The grid a freshly constructed dungeon holds: `height` rows of
   * `width` tiles, all of them walls.
   */
  function AllWalls(width: nat, height: nat): (g: Grid)
    ensures g.Valid() && g.width == width && g.height == height
    ensures forall x, y :: g.InBounds(x, y) ==> g.At(x, y) == Wall
  {
    Grid(width, height, seq(height, _ => seq(width, _ => Wall)))
  }

  /**
   * The grid after seeding: the cell (x, y) is a wall exactly when the
   * random draw made for it is below `wallProbability`. The generator is
   * not modelled; `draw(x, y)` stands for the number it yields for (x, y).
   */
  function Seeded(width: nat, height: nat, wallProbability: real, draw: (int, int) -> real): (g: Grid)
    ensures g.Valid() && g.width == width && g.height == height
    ensures forall x, y :: g.InBounds(x, y) ==> (g.At(x, y) == Wall <==> draw(x, y) < wallProbability)
  {
    Grid(width, height,
      seq(height, y => seq(width, x => if draw(x, y) < wallProbability then Wall else Floor)))
  }

  /**
   * When every draw falls below the wall probability (a probability of 1
   * with draws in [0, 1)), seeding leaves the grid all walls.
   */
  lemma {:induction false} CertainWallsSeedAllWalls(width: nat, height: nat, wallProbability: real, draw: (int, int) -> real)
    requires forall x, y :: 0 <= x < width && 0 <= y < height ==> draw(x, y) < wallProbability
    ensures Seeded(width, height, wallProbability, draw) == AllWalls(width, height)
  {
    var s, a := Seeded(width, height, wallProbability, draw), AllWalls(width, height);
    forall x, y | s.InBounds(x, y)
      ensures s.At(x, y) == a.At(x, y)
    {
      assert draw(x, y) < wallProbability;
    }
    GridExt(s, a);
  }
}
