/**
 * The dungeon object and the generation driver. The dungeon keeps its
 * dimensions and its rows of tiles in fields; the methods below update
 * them step by step, as the generator does, and are proved against the
 * pure functions of the automaton engine.
 */
module Generator {
  import opened Tiles
  import opened Automaton

  /** The dimensions, seeding probability and step bound the generator runs with. */
  const DungeonWidth: nat := 80
  const DungeonHeight: nat := 30
  const WallProbability: real := 0.45
  const MaxIterations: nat := 7

  class Dungeon {
    var width: nat
    var height: nat
    var tiles: seq<seq<Tile>>

    /** The dungeon's current contents as a value. */
    function Snapshot(): Grid
      reads this
    {
      Grid(width, height, tiles)
    }

    /** The shape invariant: `height` rows of `width` tiles. */
    ghost predicate Valid()
      reads this
    {
      Snapshot().Valid()
    }

    /** A dungeon of the given dimensions, every tile a wall; no dimension is rejected. */
    constructor (width: nat, height: nat)
      ensures Valid() && Snapshot() == AllWalls(width, height)
    {
      this.width := width;
      this.height := height;
      tiles := seq(height, _ => seq(width, _ => Wall));
    }

    /**
     * Seeds every cell, row by row: a wall when the draw made for it is
     * below `wallProbability`, a floor otherwise. The dimensions stay.
     */
    method InitializeRandom(wallProbability: real, draw: (int, int) -> real)
      requires Valid()
      modifies this
      ensures Valid() && width == old(width) && height == old(height)
      ensures Snapshot() == Seeded(width, height, wallProbability, draw)
    {
      for y := 0 to height
        invariant Valid() && width == old(width) && height == old(height)
        invariant forall j, i :: 0 <= j < y && 0 <= i < width ==>
          (tiles[j][i] == Wall <==> draw(i, j) < wallProbability)
      {
        for x := 0 to width
          invariant Valid() && width == old(width) && height == old(height)
          invariant forall j, i :: 0 <= j < y && 0 <= i < width ==>
            (tiles[j][i] == Wall <==> draw(i, j) < wallProbability)
          invariant forall i :: 0 <= i < x ==> (tiles[y][i] == Wall <==> draw(i, y) < wallProbability)
        {
          var t := if draw(x, y) < wallProbability then Wall else Floor;
          tiles := tiles[y := tiles[y][x := t]];
        }
      }
      var s := Seeded(width, height, wallProbability, draw);
      forall i, j | s.InBounds(i, j)
        ensures Snapshot().At(i, j) == s.At(i, j)
      {
      }
      GridExt(Snapshot(), s);
    }

    /**
     * Counts the walls among the eight neighbours of (x, y), visiting the
     * offsets row by row and skipping the centre; a neighbour outside the
     * grid counts as a wall. Any (x, y) is accepted.
     */
    method CountWallNeighbors(x: nat, y: nat) returns (count: nat)
      requires Valid()
      ensures count == NeighborWalls(Snapshot(), x, y)
      ensures count <= 8
    {
      ghost var g := Snapshot();
      count := 0;
      for dy := -1 to 2
        invariant count == RowsWalls(g, x, y, dy)
      {
        for dx := -1 to 2
          invariant count == RowsWalls(g, x, y, dy) + RowWalls(g, x, y, dy, dx)
        {
          if dx == 0 && dy == 0 {
            continue;
          }
          var nx := x + dx;
          var ny := y + dy;
          if nx < 0 || ny < 0 || nx >= width || ny >= height {
            count := count + 1;
          } else if tiles[ny][nx] == Wall {
            count := count + 1;
          }
        }
      }
      RowsWallsComplete(g, x, y);
    }

    /**
     * One synchronous step: every new tile is computed from the grid as it
     * was before the step and written to a copy, which then replaces the
     * tiles. Reports whether any tile changed.
     */
    method SimulateStep() returns (changed: bool)
      requires Valid()
      modifies this
      ensures Valid() && width == old(width) && height == old(height)
      ensures Snapshot() == StepSpec(old(Snapshot()))
      ensures changed <==> Snapshot() != old(Snapshot())
    {
      ghost var g := Snapshot();
      var newTiles := tiles;
      changed := false;
      for y := 0 to height
        invariant Snapshot() == g
        invariant |newTiles| == height
        invariant forall j :: 0 <= j < height ==> |newTiles[j]| == width
        invariant forall j, i :: 0 <= j < y && 0 <= i < width ==> newTiles[j][i] == NextTile(g, i, j)
        invariant forall j :: y <= j < height ==> newTiles[j] == tiles[j]
        invariant changed <==> ChangedBefore(g, 0, y)
      {
        for x := 0 to width
          invariant Snapshot() == g
          invariant |newTiles| == height
          invariant forall j :: 0 <= j < height ==> |newTiles[j]| == width
          invariant forall j, i :: 0 <= j < y && 0 <= i < width ==> newTiles[j][i] == NextTile(g, i, j)
          invariant forall j :: y < j < height ==> newTiles[j] == tiles[j]
          invariant forall i :: 0 <= i < x ==> newTiles[y][i] == NextTile(g, i, y)
          invariant forall i :: x <= i < width ==> newTiles[y][i] == tiles[y][i]
          invariant changed <==> ChangedBefore(g, x, y)
        {
          var wallCount := CountWallNeighbors(x, y);
          var newTile := if wallCount > Threshold then Wall
            else if wallCount < Threshold then Floor
            else tiles[y][x];
          assert newTile == NextTile(g, x, y);
          if newTile != tiles[y][x] {
            changed := true;
          }
          ChangedBeforeNext(g, x, y);
          newTiles := newTiles[y := newTiles[y][x := newTile]];
        }
        ChangedBeforeRowEnd(g, y);
      }
      tiles := newTiles;
      var r := StepSpec(g);
      forall i, j | r.InBounds(i, j)
        ensures Snapshot().At(i, j) == r.At(i, j)
      {
      }
      GridExt(Snapshot(), r);
      ChangedBeforeAll(g);
      StepChangesIff(g);
    }
  }

  /**
   * The driver loop: at most `maxIterations` steps, stopping right after
   * the first step that reports no change. Returns how many steps ran.
   */
  method Generate(d: Dungeon, maxIterations: nat) returns (steps: nat)
    requires d.Valid()
    modifies d
    ensures d.Valid() && d.width == old(d.width) && d.height == old(d.height)
    ensures steps == StepsTaken(old(d.Snapshot()), maxIterations)
    ensures d.Snapshot() == Iterate(old(d.Snapshot()), steps)
  {
    ghost var g := d.Snapshot();
    steps := 0;
    for iteration := 0 to maxIterations
      invariant d.Valid() && d.width == old(d.width) && d.height == old(d.height)
      invariant steps == iteration
      invariant d.Snapshot() == Iterate(g, iteration)
      invariant StepsTaken(g, maxIterations) == iteration + StepsTaken(d.Snapshot(), maxIterations - iteration)
    {
      var changed := d.SimulateStep();
      steps := iteration + 1;
      if !changed {
        break;
      }
    }
  }

  /**
   * The whole generation: an 80x30 dungeon, seeded with wall probability
   * 0.45 from the given draws, then run through at most seven steps.
   */
  method GenerateDungeon(draw: (int, int) -> real) returns (d: Dungeon, steps: nat)
    ensures fresh(d) && d.Valid() && d.width == DungeonWidth && d.height == DungeonHeight
    ensures steps == StepsTaken(Seeded(DungeonWidth, DungeonHeight, WallProbability, draw), MaxIterations)
    ensures d.Snapshot() == Iterate(Seeded(DungeonWidth, DungeonHeight, WallProbability, draw), steps)
  {
    d := new Dungeon(DungeonWidth, DungeonHeight);
    d.InitializeRandom(WallProbability, draw);
    steps := Generate(d, MaxIterations);
  }
}
