/** Two places where the sampler's grid logic falls short of the promise that
    every accepted point is at least minDist from every other and stays in the
    result. Each comes with a concrete state in which the code as written goes
    wrong, and a corrected test with the intended property proved. */
module PoissonFindings {
  import opened Geometry
  import opened Neighbourhood
  import opened Poisson

  lemma SqrtTwoBounds(m: real)
    requires m > 0.0 && m * m == 2.0
    ensures 1.41 < m < 1.42
  {
    if m <= 1.41 {
      MulNonNegative(1.41 - m, 1.41 + m);
      assert false;
    }
    if m >= 1.42 {
      MulNonNegative(m - 1.42, m + 1.42);
      assert false;
    }
  }

  /** With cellSize = minDist / sqrt(2), a cell is narrower than minDist, so a
      point closer than minDist can sit two columns away, but at least half as
      wide, so it cannot sit three columns away. */
  lemma SourceCellSizeFits(cellSize: real, minDist: real)
    requires cellSize > 0.0 && minDist > 0.0 && 2.0 * cellSize * cellSize == minDist * minDist
    ensures cellSize < minDist <= 2.0 * cellSize
  {
    assert 2.0 * Sq(cellSize) == Sq(minDist);
    assert Sq(2.0 * cellSize) == 4.0 * Sq(cellSize);
    SqPositive(cellSize);
    if minDist <= cellSize {
      SqMonotone(minDist, cellSize);
      assert false;
    }
    if minDist > 2.0 * cellSize {
      SqMonotone(2.0 * cellSize, minDist);
      assert false;
    }
  }

  /** Finding 1, as written. Cell size 1, minDist sqrt(2), a 10 x 10 grid
      holding a = (1.99, 3.5 - sqrt(2)) in cell 21 and q = (3.01, 3.5) in cell 33,
      which are far enough apart. The candidate spawned from a along bearing 0 is
      p = (1.99, 3.5): it lies in cell 31, the nine-cell scan around it never
      visits cell 33, so it is admitted although it is 1.02 from q.
      The grid is well placed, inside the inset rectangle and pairwise
      separated; the lemma does not show it reached by a run from a seed. */
  lemma NarrowScanAdmitsCloseCandidate(m: real)
    requires m > 0.0 && m * m == 2.0
    ensures
      var a := Point(1.99, 3.5 - m);
      var q := Point(3.01, 3.5);
      var g := seq(100, i => if i == 21 then a else if i == 33 then q else Sentinel);
      var p := Candidate(a, m, Bearing(0.0, 1.0));
      (10.0 / 1.0).Floor == 10 &&
      WellPlaced(g, 1.0, 10) && AllInterior(g, 10.0, 10.0) && Separated(g, m) &&
      InInterior(p, 10.0, 10.0) && Clear(g, 10, 1.0, m, p, 1) && CellIndex(p, 1.0, 10) == 31 &&
      TooClose(p, q, m) && !Separated(g[31 := p], m)
  {
    SqrtTwoBounds(m);
    var a := Point(1.99, 3.5 - m);
    var q := Point(3.01, 3.5);
    var g := seq(100, i => if i == 21 then a else if i == 33 then q else Sentinel);
    var p := Candidate(a, m, Bearing(0.0, 1.0));
    assert p == Point(1.99, 3.5);
    assert CellIndex(a, 1.0, 10) == 21;
    assert CellIndex(q, 1.0, 10) == 33;
    assert CellIndex(p, 1.0, 10) == 31;
    assert WellPlaced(g, 1.0, 10);
    assert SqDist(a, q) == 1.02 * 1.02 + m * m;
    assert Separated(g, m);
    forall dc: int, dr: int | -1 <= dc <= 1 && -1 <= dr <= 1
      ensures !Rejects(g, 10, 1.0, m, p, dc, dr)
    {
      var j := AdjIndex(p, 1.0, 10, dc, dr);
      assert j == (1 + dc) + (3 + dr) * 10;
      assert j != 33;
      if j == 21 {
        assert SqDist(a, p) == m * m;
      }
    }
    var g' := g[31 := p];
    assert g'[31] == p && g'[33] == q;
    assert TooClose(g'[31], g'[33], m);
  }

  /** A stored point closer to p than minDist lies within two columns and two
      rows of p's cell, so the 25-cell scan visits its index and rejects p. */
  lemma CloseNeighbourWithinTwoCells(grid: seq<Point>, cellSize: real, cols: int, minDist: real, p: Point, i: int)
    requires cellSize > 0.0 && minDist > 0.0 && 2.0 * cellSize * cellSize == minDist * minDist
    requires WellPlaced(grid, cellSize, cols)
    requires 0 <= i < |grid| && !IsSentinel(grid[i]) && grid[i] != p && TooClose(grid[i], p, minDist)
    ensures var dc := CellCol(grid[i], cellSize) - CellCol(p, cellSize);
      var dr := CellRow(grid[i], cellSize) - CellRow(p, cellSize);
      -2 <= dc <= 2 && -2 <= dr <= 2 && Rejects(grid, cols, cellSize, minDist, p, dc, dr)
  {
    SourceCellSizeFits(cellSize, minDist);
    var q := grid[i];
    var dx, dy := q.x - p.x, q.y - p.y;
    assert SqDist(q, p) == dx * dx + dy * dy;
    MulNonNegative(if dy >= 0.0 then dy else -dy, if dy >= 0.0 then dy else -dy);
    MulNonNegative(if dx >= 0.0 then dx else -dx, if dx >= 0.0 then dx else -dx);
    SquareBelow(dx, minDist);
    SquareBelow(dy, minDist);
    FloorGap(q.x, p.x, cellSize, 2);
    FloorGap(q.y, p.y, cellSize, 2);
    var dc := CellCol(q, cellSize) - CellCol(p, cellSize);
    var dr := CellRow(q, cellSize) - CellRow(p, cellSize);
    assert AdjIndex(p, cellSize, cols, dc, dr) == CellIndex(q, cellSize, cols) == i;
  }

  /** Finding 1, corrected: scanning the 25 cells within two columns and two
      rows finds every stored point closer than minDist, whatever the linear
      wrap-around at the edges. */
  lemma WideScanFindsEveryCloseNeighbour(grid: seq<Point>, cellSize: real, cols: int, minDist: real, p: Point)
    requires cellSize > 0.0 && minDist > 0.0 && 2.0 * cellSize * cellSize == minDist * minDist
    requires WellPlaced(grid, cellSize, cols)
    requires Clear(grid, cols, cellSize, minDist, p, 2)
    ensures forall i | 0 <= i < |grid| && !IsSentinel(grid[i]) && grid[i] != p :: !TooClose(grid[i], p, minDist)
  {
    forall i | 0 <= i < |grid| && !IsSentinel(grid[i]) && grid[i] != p
      ensures !TooClose(grid[i], p, minDist)
    {
      if TooClose(grid[i], p, minDist) {
        CloseNeighbourWithinTwoCells(grid, cellSize, cols, minDist, p, i);
        assert false;
      }
    }
  }

  /** Finding 1, corrected: storing a point the 25-cell scan clears keeps the
      grid well placed and keeps every two stored points minDist apart. */
  lemma WideScanKeepsSeparation(grid: seq<Point>, cellSize: real, cols: int, minDist: real, p: Point)
    requires cellSize > 0.0 && minDist > 0.0 && 2.0 * cellSize * cellSize == minDist * minDist
    requires WellPlaced(grid, cellSize, cols) && Separated(grid, minDist)
    requires !IsSentinel(p) && Clear(grid, cols, cellSize, minDist, p, 2)
    requires 0 <= CellIndex(p, cellSize, cols) < |grid|
    ensures var i := CellIndex(p, cellSize, cols);
      WellPlaced(grid[i := p], cellSize, cols) && Separated(grid[i := p], minDist)
  {
    var i := CellIndex(p, cellSize, cols);
    var g' := grid[i := p];
    WideScanFindsEveryCloseNeighbour(grid, cellSize, cols, minDist, p);
    forall j, k | 0 <= j < |g'| && 0 <= k < |g'| && j != k && !IsSentinel(g'[j]) && !IsSentinel(g'[k])
      ensures !TooClose(g'[j], g'[k], minDist)
    {
      if j == i {
        assert grid[k] != p;
        assert SqDist(g'[j], g'[k]) == SqDist(grid[k], p);
      } else if k == i {
        assert grid[j] != p;
      }
    }
  }

  /** Finding 2, as written. Cell size 2, minDist sqrt(8), a 7.5 x 7.5 domain:
      3 columns and 3 rows. q = (1.2, 3.9) is stored in cell 0 + 1 * 3 = 3. The
      interior point p = (6.2, 1.5) has column floor(6.2 / 2) = 3 = cols, so its
      linear index is also 3; the scan finds q far away and the index test
      passes, so p is written over q, and q drops out of the samples.
      As in finding 1, the grid is well placed, inside the inset rectangle
      and pairwise separated, and p's parent is left out of it: the lemma
      does not show this state reached by a run from a seed. */
  lemma ColumnWrapOverwritesDistantPoint(m: real)
    requires m > 0.0 && m * m == 8.0
    ensures
      var q := Point(1.2, 3.9);
      var p := Point(6.2, 1.5);
      var g := seq(9, i => if i == 3 then q else Sentinel);
      (7.5 / 2.0).Floor == 3 &&
      WellPlaced(g, 2.0, 3) && AllInterior(g, 7.5, 7.5) && Separated(g, m) &&
      InInterior(p, 7.5, 7.5) && Clear(g, 3, 2.0, m, p, 1) &&
      CellCol(p, 2.0) == 3 && CellIndex(p, 2.0, 3) == 3 &&
      q in StoredPoints(g) && q !in StoredPoints(g[3 := p])
  {
    var q := Point(1.2, 3.9);
    var p := Point(6.2, 1.5);
    var g := seq(9, i => if i == 3 then q else Sentinel);
    assert CellIndex(q, 2.0, 3) == 3;
    assert CellIndex(p, 2.0, 3) == 3;
    assert WellPlaced(g, 2.0, 3);
    forall dc: int, dr: int | -1 <= dc <= 1 && -1 <= dr <= 1
      ensures !Rejects(g, 3, 2.0, m, p, dc, dr)
    {
      var j := AdjIndex(p, 2.0, 3, dc, dr);
      assert j == (3 + dc) + dr * 3;
      if j == 3 {
        assert SqDist(q, p) == 30.76;
      }
    }
    assert g[3] == q;
    var g' := g[3 := p];
    assert forall i | 0 <= i < |g'| && !IsSentinel(g'[i]) :: g'[i] == p;
  }

  /** The index test with the intended bounds: column and row each inside the
      grid, not only the linear index. */
  predicate InColumnsAndRows(p: Point, cellSize: real, cols: int, rows: int)
    requires cellSize > 0.0
  {
    0 <= CellCol(p, cellSize) < cols && 0 <= CellRow(p, cellSize) < rows
  }

  ghost predicate AllInColumnsAndRows(grid: seq<Point>, cellSize: real, cols: int, rows: int)
    requires cellSize > 0.0
  {
    forall i | 0 <= i < |grid| && !IsSentinel(grid[i]) :: InColumnsAndRows(grid[i], cellSize, cols, rows)
  }

  lemma IndexInjective(a1: int, b1: int, a2: int, b2: int, n: int)
    requires 0 <= a1 < n && 0 <= a2 < n && a1 + b1 * n == a2 + b2 * n
    ensures a1 == a2 && b1 == b2
  {
    if b1 > b2 {
      ProductNonNegative(b1 - b2 - 1, n);
      assert false;
    }
    if b2 > b1 {
      ProductNonNegative(b2 - b1 - 1, n);
      assert false;
    }
  }

  lemma IndexBelowSize(col: int, row: int, cols: int, rows: int)
    requires 0 <= col < cols && 0 <= row < rows
    ensures 0 <= col + row * cols < cols * rows
  {
    ProductNonNegative(row, cols);
    ProductNonNegative(rows - row - 1, cols);
    assert (rows - row - 1) * cols == rows * cols - row * cols - cols;
  }

  /** Finding 2, corrected: when the column and the row are bounded separately,
      a point the scan clears is written only into an empty cell or over an
      equal point, so the stored points grow by exactly that point. */
  lemma BoundedStoreKeepsEveryPoint(grid: seq<Point>, cellSize: real, cols: int, rows: int, minDist: real, p: Point)
    requires cellSize > 0.0 && minDist > 0.0 && 2.0 * cellSize * cellSize == minDist * minDist
    requires |grid| == cols * rows
    requires WellPlaced(grid, cellSize, cols) && AllInColumnsAndRows(grid, cellSize, cols, rows)
    requires !IsSentinel(p) && InColumnsAndRows(p, cellSize, cols, rows)
    requires Clear(grid, cols, cellSize, minDist, p, 1)
    ensures var i := CellIndex(p, cellSize, cols);
      0 <= i < |grid| &&
      WellPlaced(grid[i := p], cellSize, cols) && AllInColumnsAndRows(grid[i := p], cellSize, cols, rows) &&
      StoredPoints(grid[i := p]) == StoredPoints(grid) + {p}
  {
    var i := CellIndex(p, cellSize, cols);
    IndexBelowSize(CellCol(p, cellSize), CellRow(p, cellSize), cols, rows);
    if !IsSentinel(grid[i]) {
      var q := grid[i];
      assert CellIndex(q, cellSize, cols) == i;
      IndexInjective(CellCol(q, cellSize), CellRow(q, cellSize), CellCol(p, cellSize), CellRow(p, cellSize), cols);
      SameCellGap(q.x, p.x, cellSize);
      SameCellGap(q.y, p.y, cellSize);
      SquareAbove(q.x - p.x, cellSize);
      SquareAbove(q.y - p.y, cellSize);
      assert SqDist(q, p) < minDist * minDist;
      assert AdjIndex(p, cellSize, cols, 0, 0) == i;
      assert !Rejects(grid, cols, cellSize, minDist, p, 0, 0);
      assert q == p;
    }
    var g' := grid[i := p];
    forall r | r in StoredPoints(grid) + {p} ensures r in StoredPoints(g') {
      if r == p {
        assert g'[i] == p;
      } else {
        var j :| 0 <= j < |grid| && !IsSentinel(grid[j]) && grid[j] == r;
        assert j != i;
        assert g'[j] == r;
      }
    }
    forall r | r in StoredPoints(g') ensures r in StoredPoints(grid) + {p} {
      var j :| 0 <= j < |g'| && !IsSentinel(g'[j]) && g'[j] == r;
      if j != i {
        assert grid[j] == r;
      }
    }
  }

  /** Both corrections together: the 25-cell scan and the separate column and
      row bounds. */
  predicate AdmitsCorrected(grid: seq<Point>, cellSize: real, cols: int, rows: int, minDist: real,
                            width: real, height: real, p: Point)
    requires cellSize > 0.0
  {
    InInterior(p, width, height) && Clear(grid, cols, cellSize, minDist, p, 2) &&
    InColumnsAndRows(p, cellSize, cols, rows)
  }

  /** With both corrections, storing an admitted point keeps every accepted
      point, adds the new one, and keeps all stored points minDist apart. */
  lemma CorrectedStoreKeepsSamples(grid: seq<Point>, cellSize: real, cols: int, rows: int, minDist: real,
                                   width: real, height: real, p: Point)
    requires cellSize > 0.0 && minDist > 0.0 && 2.0 * cellSize * cellSize == minDist * minDist
    requires |grid| == cols * rows
    requires WellPlaced(grid, cellSize, cols) && AllInColumnsAndRows(grid, cellSize, cols, rows)
    requires AllInterior(grid, width, height) && Separated(grid, minDist)
    requires AdmitsCorrected(grid, cellSize, cols, rows, minDist, width, height, p)
    ensures var i := CellIndex(p, cellSize, cols);
      0 <= i < |grid| &&
      WellPlaced(grid[i := p], cellSize, cols) && AllInColumnsAndRows(grid[i := p], cellSize, cols, rows) &&
      AllInterior(grid[i := p], width, height) && Separated(grid[i := p], minDist) &&
      StoredPoints(grid[i := p]) == StoredPoints(grid) + {p}
  {
    assert Clear(grid, cols, cellSize, minDist, p, 1) by {
      forall dc: int, dr: int | -1 <= dc <= 1 && -1 <= dr <= 1
        ensures !Rejects(grid, cols, cellSize, minDist, p, dc, dr)
      {
      }
    }
    BoundedStoreKeepsEveryPoint(grid, cellSize, cols, rows, minDist, p);
    WideScanKeepsSeparation(grid, cellSize, cols, minDist, p);
  }
}
