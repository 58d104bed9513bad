/** What the grid may hold and what the neighbourhood scan looks at. The grid is a
    flat sequence of cells; a cell holds the sentinel or one accepted point. */
module Neighbourhood {
  import opened Geometry

  /** The linear index the scan visits for the offset (dc, dr) around p's cell:
      (col + dc) + (row + dr) * cols. Only this linear index is range-checked, so
      a column offset at the left or right edge lands on the previous or next row. */
  function AdjIndex(p: Point, cellSize: real, cols: int, dc: int, dr: int): int
    requires cellSize > 0.0
  {
    (CellCol(p, cellSize) + dc) + (CellRow(p, cellSize) + dr) * cols
  }

  /** The scan rejects p at the offset (dc, dr): the visited index is inside the
      grid, its cell holds a point, that point is not p itself, and it is closer
      to p than minDist. */
  predicate Rejects(grid: seq<Point>, cols: int, cellSize: real, minDist: real, p: Point, dc: int, dr: int)
    requires cellSize > 0.0
  {
    var j := AdjIndex(p, cellSize, cols, dc, dr);
    0 <= j < |grid| && !IsSentinel(grid[j]) && grid[j] != p && TooClose(grid[j], p, minDist)
  }

  /** No offset with both components in [-reach, reach] rejects p. The source
      scans reach 1, the nine cells around p's cell. */
  predicate Clear(grid: seq<Point>, cols: int, cellSize: real, minDist: real, p: Point, reach: nat)
    requires cellSize > 0.0
  {
    var r := reach as int;
    forall dc: int, dr: int | -r <= dc <= r && -r <= dr <= r ::
      !Rejects(grid, cols, cellSize, minDist, p, dc, dr)
  }

  /** Every occupied cell holds a point that hashes to that very cell. */
  ghost predicate WellPlaced(grid: seq<Point>, cellSize: real, cols: int)
    requires cellSize > 0.0
  {
    forall i | 0 <= i < |grid| && !IsSentinel(grid[i]) :: CellIndex(grid[i], cellSize, cols) == i
  }

  /** Every occupied cell holds a point of the inset rectangle. */
  ghost predicate AllInterior(grid: seq<Point>, width: real, height: real) {
    forall i | 0 <= i < |grid| && !IsSentinel(grid[i]) :: InInterior(grid[i], width, height)
  }

  /** No two occupied cells hold points closer than minDist. */
  ghost predicate Separated(grid: seq<Point>, minDist: real) {
    forall i, j | 0 <= i < |grid| && 0 <= j < |grid| && i != j && !IsSentinel(grid[i]) && !IsSentinel(grid[j]) ::
      !TooClose(grid[i], grid[j], minDist)
  }

  /** The accepted points the grid holds. */
  ghost function StoredPoints(grid: seq<Point>): set<Point> {
    set i | 0 <= i < |grid| && !IsSentinel(grid[i]) :: grid[i]
  }

  /** Every occupied cell holds a point of the seed range. */
  ghost predicate AllInSeedRange(grid: seq<Point>, width: real, height: real) {
    forall i | 0 <= i < |grid| && !IsSentinel(grid[i]) :: InSeedRange(grid[i], width, height)
  }

  /** When both sides are at least 2, a grid in the seed range holds only
      points of the inset rectangle. */
  lemma SeedRangeIsInterior(grid: seq<Point>, width: real, height: real)
    requires width >= 2.0 && height >= 2.0 && AllInSeedRange(grid, width, height)
    ensures AllInterior(grid, width, height)
  {
    forall i | 0 <= i < |grid| && !IsSentinel(grid[i])
      ensures InInterior(grid[i], width, height)
    {
      SeedRangeBounds(grid[i], width, height);
    }
  }

  /** Writing a point of the seed range into the cell it hashes to, when that
      index is inside the grid, keeps the grid well placed and in the seed
      range, and no occupied cell becomes empty. */
  lemma StoreKeepsPlacement(grid: seq<Point>, cellSize: real, cols: int, width: real, height: real, p: Point)
    requires cellSize > 0.0 && width > 0.0 && height > 0.0
    requires WellPlaced(grid, cellSize, cols) && AllInSeedRange(grid, width, height)
    requires InSeedRange(p, width, height) && 0 <= CellIndex(p, cellSize, cols) < |grid|
    ensures var i := CellIndex(p, cellSize, cols);
      WellPlaced(grid[i := p], cellSize, cols) && AllInSeedRange(grid[i := p], width, height) &&
      forall j | 0 <= j < |grid| && !IsSentinel(grid[j]) :: !IsSentinel(grid[i := p][j])
  {
  }
}
