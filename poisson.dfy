/** The Poisson-disc sampler: a grid of cells sized by the minimum distance, one
    seed, and a list of active points that spawn candidates at exactly minDist
    until every active point has failed timeOut attempts in a row.

    Randomness is supplied by the caller: seed positions, one bearing per
    attempt (the sine and cosine of a random angle) and one uniform draw in
    [0, 1) per pick of an active point. */
module Poisson {
  import opened Geometry
  import opened Neighbourhood

  datatype Option<T> = None | Some(value: T)

  /** How a run ends: with the grid of samples; with the seed's index below 0,
      where the source's list indexer throws ArgumentOutOfRangeException; or
      with the supplied draws used up while points are still active. */
  datatype Outcome = Sampled(grid: seq<Point>) | IndexOutOfRange | DrawsExhausted

  /** The sine and cosine of a random angle. */
  datatype Bearing = Bearing(sin: real, cos: real)

  predicate IsUnit(b: Bearing) {
    b.sin * b.sin + b.cos * b.cos == 1.0
  }

  /** Every bearing of every round is a unit vector, as the sine and cosine of
      an angle are. */
  predicate AllUnit(bearings: seq<seq<Bearing>>) {
    forall k, j | 0 <= k < |bearings| && 0 <= j < |bearings[k]| :: IsUnit(bearings[k][j])
  }

  /** The candidate spawned from an active point: minDist away along the bearing. */
  function Candidate(from: Point, minDist: real, b: Bearing): (p: Point)
    ensures IsUnit(b) ==> SqDist(p, from) == minDist * minDist
  {
    var p := Point(from.x + minDist * b.sin, from.y + minDist * b.cos);
    assert SqDist(p, from) == minDist * minDist * (b.sin * b.sin + b.cos * b.cos);
    p
  }

  /** How many times `for (i = 0; i < timeOut; i++)` runs: the least natural
      number that is not below timeOut. */
  function Attempts(timeOut: real): (n: nat)
    ensures timeOut <= n as real
    ensures n == 0 || (n - 1) as real < timeOut
  {
    if timeOut <= 0.0 then 0 else -((-timeOut).Floor)
  }

  /** A uniform index into a list of n elements, from a uniform draw u in [0, 1). */
  function PickIndex(u: real, n: nat): (i: nat)
    requires 0.0 <= u < 1.0 && 0 < n
    ensures i < n
  {
    MulNonNegative(u, n as real);
    MulPositive(1.0 - u, n as real);
    var r := u * n as real;
    assert r < n as real;
    assert r.Floor as real <= r;
    r.Floor
  }

  /** The list with the element at i taken out and the others kept in order. */
  function RemoveAt<T>(s: seq<T>, i: nat): (r: seq<T>)
    requires i < |s|
    ensures |r| == |s| - 1
    ensures forall j | 0 <= j < i :: r[j] == s[j]
    ensures forall j | i <= j < |r| :: r[j] == s[j + 1]
  {
    s[..i] + s[i + 1..]
  }

  /** The first draw, at or after `from`, whose cell index is below `size`:
      where the seed loop stops. */
  function FirstLanding(draws: seq<Point>, cellSize: real, cols: int, size: int, from: nat): (k: nat)
    requires cellSize > 0.0
    requires exists j | from <= j < |draws| :: CellIndex(draws[j], cellSize, cols) < size
    ensures from <= k < |draws| && CellIndex(draws[k], cellSize, cols) < size
    ensures forall j | from <= j < k :: CellIndex(draws[j], cellSize, cols) >= size
    decreases |draws| - from
  {
    if CellIndex(draws[from], cellSize, cols) < size then from
    else FirstLanding(draws, cellSize, cols, size, from + 1)
  }

  /** The parameters a run of the sampler fixes before it starts: the cell
      size, the number of columns, the domain, the minimum distance and the
      attempt bound. */
  datatype Config = Config(cellSize: real, cols: int, width: real, height: real, minDist: real, timeOut: real)

  /** The test a candidate passes to be stored in grid g: it lies in the
      inset rectangle, the nine-cell scan finds no point too close, and its
      linear index is below the number of cells. */
  ghost predicate Admits(cfg: Config, g: seq<Point>, p: Point)
    requires cfg.cellSize > 0.0
  {
    InInterior(p, cfg.width, cfg.height) && Clear(g, cfg.cols, cfg.cellSize, cfg.minDist, p, 1) &&
    CellIndex(p, cfg.cellSize, cfg.cols) < |g|
  }

  /** The attempt, at or after `from`, at which the loop of GeneratePoint
      around p stops on grid g: the first of the first Attempts(timeOut)
      bearings whose candidate g admits, or Attempts(timeOut) when none is. */
  ghost function FirstAdmitted(cfg: Config, g: seq<Point>, p: Point, bearings: seq<Bearing>, from: nat): (k: nat)
    requires cfg.cellSize > 0.0
    requires from <= Attempts(cfg.timeOut) <= |bearings|
    ensures from <= k <= Attempts(cfg.timeOut)
    ensures forall j | from <= j < k :: !Admits(cfg, g, Candidate(p, cfg.minDist, bearings[j]))
    ensures k < Attempts(cfg.timeOut) ==> Admits(cfg, g, Candidate(p, cfg.minDist, bearings[k]))
    decreases Attempts(cfg.timeOut) - from
  {
    if from == Attempts(cfg.timeOut) || Admits(cfg, g, Candidate(p, cfg.minDist, bearings[from])) then from
    else FirstAdmitted(cfg, g, p, bearings, from + 1)
  }

  /** An attempt with no admitted candidate before it, and admitted itself
      unless it is Attempts(timeOut), is the one FirstAdmitted finds. */
  lemma FirstAdmittedIsUnique(cfg: Config, g: seq<Point>, p: Point, bearings: seq<Bearing>, k: nat)
    requires cfg.cellSize > 0.0
    requires k <= Attempts(cfg.timeOut) <= |bearings|
    requires forall j | 0 <= j < k :: !Admits(cfg, g, Candidate(p, cfg.minDist, bearings[j]))
    requires k < Attempts(cfg.timeOut) ==> Admits(cfg, g, Candidate(p, cfg.minDist, bearings[k]))
    ensures FirstAdmitted(cfg, g, p, bearings, 0) == k
  {
  }

  /** One round of the driver on grid g and active list a, picking the
      active point at index i: the first admitted candidate is written into
      its cell and appended to the list, or, when none is, the point is
      removed from the list. */
  ghost function Round(cfg: Config, g: seq<Point>, a: seq<Point>, i: nat, bearings: seq<Bearing>): (r: (seq<Point>, seq<Point>))
    requires cfg.cellSize > 0.0 && 0 <= cfg.cols
    requires i < |a| && Attempts(cfg.timeOut) <= |bearings|
    ensures |r.0| == |g|
  {
    var k := FirstAdmitted(cfg, g, a[i], bearings, 0);
    if k < Attempts(cfg.timeOut) then
      var p := Candidate(a[i], cfg.minDist, bearings[k]);
      (g[CellIndex(p, cfg.cellSize, cfg.cols) := p], a + [p])
    else
      (g, RemoveAt(a, i))
  }

  /** The draws a run consumes: picks in [0, 1), and at least one pick's worth
      of rounds of at least Attempts(timeOut) bearings each. */
  predicate Draws(cfg: Config, picks: seq<real>, bearings: seq<seq<Bearing>>) {
    |picks| <= |bearings| &&
    (forall j | 0 <= j < |picks| :: 0.0 <= picks[j] < 1.0) &&
    (forall j | 0 <= j < |bearings| :: Attempts(cfg.timeOut) <= |bearings[j]|)
  }

  /** The rounds the driver runs from grid g and active list a, the k-th
      picking with picks[k] and spawning along bearings[k], until the active
      list is empty or the picks run out. */
  ghost function Run(cfg: Config, g: seq<Point>, a: seq<Point>, picks: seq<real>, bearings: seq<seq<Bearing>>, k: nat): (r: (seq<Point>, seq<Point>))
    requires cfg.cellSize > 0.0 && 0 <= cfg.cols
    requires k <= |picks| && Draws(cfg, picks, bearings)
    ensures |r.0| == |g|
    decreases |picks| - k
  {
    if a == [] || k == |picks| then (g, a)
    else
      var next := Round(cfg, g, a, PickIndex(picks[k], |a|), bearings[k]);
      Run(cfg, next.0, next.1, picks, bearings, k + 1)
  }

  /** A round keeps the grid well placed and inside the seed range, empties
      no occupied cell, and changes nothing in the grid when a side is below
      2, where the inset rectangle is empty. */
  lemma RoundKeepsGrid(cfg: Config, g: seq<Point>, a: seq<Point>, i: nat, bearings: seq<Bearing>)
    requires cfg.cellSize > 0.0 && 0 <= cfg.cols && cfg.width > 0.0 && cfg.height > 0.0
    requires i < |a| && Attempts(cfg.timeOut) <= |bearings|
    requires WellPlaced(g, cfg.cellSize, cfg.cols) && AllInSeedRange(g, cfg.width, cfg.height)
    ensures var r := Round(cfg, g, a, i, bearings);
      WellPlaced(r.0, cfg.cellSize, cfg.cols) && AllInSeedRange(r.0, cfg.width, cfg.height) &&
      (forall j | 0 <= j < |g| && !IsSentinel(g[j]) :: !IsSentinel(r.0[j])) &&
      (cfg.width < 2.0 || cfg.height < 2.0 ==> r.0 == g)
  {
    var k := FirstAdmitted(cfg, g, a[i], bearings, 0);
    if k < Attempts(cfg.timeOut) {
      var p := Candidate(a[i], cfg.minDist, bearings[k]);
      SeedRangeBounds(p, cfg.width, cfg.height);
      StoreKeepsPlacement(g, cfg.cellSize, cfg.cols, cfg.width, cfg.height, p);
    }
  }

  /** With unit bearings, the point a round appends is exactly minDist from
      the active point it was spawned from. */
  lemma RoundSpawnsAtMinDist(cfg: Config, g: seq<Point>, a: seq<Point>, i: nat, bearings: seq<Bearing>)
    requires cfg.cellSize > 0.0 && 0 <= cfg.cols
    requires i < |a| && Attempts(cfg.timeOut) <= |bearings|
    requires forall k | 0 <= k < |bearings| :: IsUnit(bearings[k])
    ensures var r := Round(cfg, g, a, i, bearings);
      r.1 == RemoveAt(a, i) ||
      (|r.1| == |a| + 1 && r.1[..|a|] == a && SqDist(r.1[|a|], a[i]) == cfg.minDist * cfg.minDist)
  {
    var k := FirstAdmitted(cfg, g, a[i], bearings, 0);
    if k < Attempts(cfg.timeOut) {
      var p := Candidate(a[i], cfg.minDist, bearings[k]);
      assert (a + [p])[..|a|] == a;
    }
  }

  /** The whole run keeps the grid well placed and inside the seed range,
      never empties an occupied cell, and leaves the grid as it is when a
      side is below 2. */
  lemma {:induction false} RunKeepsGrid(cfg: Config, g: seq<Point>, a: seq<Point>, picks: seq<real>, bearings: seq<seq<Bearing>>, k: nat)
    requires cfg.cellSize > 0.0 && 0 <= cfg.cols && cfg.width > 0.0 && cfg.height > 0.0
    requires k <= |picks| && Draws(cfg, picks, bearings)
    requires WellPlaced(g, cfg.cellSize, cfg.cols) && AllInSeedRange(g, cfg.width, cfg.height)
    ensures var r := Run(cfg, g, a, picks, bearings, k);
      WellPlaced(r.0, cfg.cellSize, cfg.cols) && AllInSeedRange(r.0, cfg.width, cfg.height) &&
      (forall j | 0 <= j < |g| && !IsSentinel(g[j]) :: !IsSentinel(r.0[j])) &&
      (cfg.width < 2.0 || cfg.height < 2.0 ==> r.0 == g)
    decreases |picks| - k
  {
    if a != [] && k < |picks| {
      var i := PickIndex(picks[k], |a|);
      var next := Round(cfg, g, a, i, bearings[k]);
      RoundKeepsGrid(cfg, g, a, i, bearings[k]);
      RunKeepsGrid(cfg, next.0, next.1, picks, bearings, k + 1);
    }
  }

  /** With timeOut at most 0 no candidate is ever tried, so every round
      retires its point: as many picks as active points empty the list and
      leave the grid unchanged. */
  lemma {:induction false} RunWithoutAttemptsRetiresAll(cfg: Config, g: seq<Point>, a: seq<Point>, picks: seq<real>, bearings: seq<seq<Bearing>>, k: nat)
    requires cfg.cellSize > 0.0 && 0 <= cfg.cols && cfg.timeOut <= 0.0
    requires k <= |picks| && Draws(cfg, picks, bearings) && |a| <= |picks| - k
    ensures Run(cfg, g, a, picks, bearings, k) == (g, [])
    decreases |picks| - k
  {
    if a != [] {
      var i := PickIndex(picks[k], |a|);
      assert FirstAdmitted(cfg, g, a[i], bearings[k], 0) == 0;
      RunWithoutAttemptsRetiresAll(cfg, g, RemoveAt(a, i), picks, bearings, k + 1);
    }
  }

  class PoissonDiskSampling {
    var cellSize: real
    var cols: int
    var rows: int
    var grid: seq<Point>
    var active: seq<Point>
    var width: real
    var height: real
    var timeOut: real
    var minDist: real

    /** The implicit default constructor of the source's class. */
    constructor ()
    {
    }

    /** The grid has cols * rows cells, and every occupied cell holds a point
        of the seed range that hashes to it. */
    ghost predicate Valid()
      reads this
    {
      cellSize > 0.0 && minDist > 0.0 && width > 0.0 && height > 0.0 &&
      0 <= cols && 0 <= rows && |grid| == cols * rows &&
      WellPlaced(grid, cellSize, cols) && AllInSeedRange(grid, width, height)
    }

    /** The parameters this run has fixed. */
    ghost function Cfg(): (cfg: Config)
      reads this`cellSize, this`cols, this`width, this`height, this`minDist, this`timeOut
      ensures cfg.cellSize == cellSize && cfg.cols == cols && cfg.minDist == minDist
      ensures cfg.width == width && cfg.height == height && cfg.timeOut == timeOut
    {
      Config(cellSize, cols, width, height, minDist, timeOut)
    }

    /** Sizes the grid and fills it with sentinels; the caller supplies the
        cell size minDist / sqrt(2). */
    method CreateGrid(c: real)
      requires IsCellSize(c, minDist)
      requires width > 0.0 && height > 0.0
      modifies this`grid, this`active, this`cellSize, this`cols, this`rows
      ensures cellSize == c && cols == (width / c).Floor && rows == (height / c).Floor
      ensures |grid| == cols * rows && forall i | 0 <= i < |grid| :: grid[i] == Sentinel
      ensures active == []
      ensures Valid()
    {
      grid := [];
      active := [];
      cellSize := c;
      FloorNonNegative(width, c);
      FloorNonNegative(height, c);
      cols := (width / cellSize).Floor;
      rows := (height / cellSize).Floor;
      ProductNonNegative(cols, rows);
      for i := 0 to cols * rows
        modifies this`grid
        invariant |grid| == i
        invariant forall k | 0 <= k < i :: grid[k] == Sentinel
      {
        // inserting at index i == |grid| appends
        grid := grid + [Sentinel];
      }
    }

    /** Draws seed positions until one hashes below the number of cells, stores
        it in that cell and makes it active. Returns false, changing nothing,
        where the source's store throws because that index is negative. */
    method GenerateSeed(draws: seq<Point>) returns (stored: bool)
      requires Valid()
      requires forall k | 0 <= k < |draws| :: InSeedRange(draws[k], width, height)
      requires exists k | 0 <= k < |draws| :: CellIndex(draws[k], cellSize, cols) < |grid|
      modifies this`grid, this`active
      ensures Valid()
      ensures var seed := draws[FirstLanding(draws, cellSize, cols, |old(grid)|, 0)];
        var i := CellIndex(seed, cellSize, cols);
        (stored <==> 0 <= i) &&
        (stored ==> grid == old(grid)[i := seed] && active == old(active) + [seed]) &&
        (!stored ==> grid == old(grid) && active == old(active))
      ensures width >= 1.0 && height >= 1.0 ==> stored
    {
      var k := 0;
      var seedPos := draws[0];
      // the source names the x-derived cell number rowIndex and the y-derived one colIndex
      var rowIndex := (seedPos.x / cellSize).Floor;
      var colIndex := (seedPos.y / cellSize).Floor;
      while rowIndex + colIndex * cols >= |grid|
        invariant 0 <= k < |draws| && seedPos == draws[k]
        invariant rowIndex + colIndex * cols == CellIndex(seedPos, cellSize, cols)
        invariant forall j | 0 <= j < k :: CellIndex(draws[j], cellSize, cols) >= |grid|
        decreases |draws| - k
      {
        ghost var w :| 0 <= w < |draws| && CellIndex(draws[w], cellSize, cols) < |grid|;
        assert k < w;
        k := k + 1;
        seedPos := draws[k];
        rowIndex := (seedPos.x / cellSize).Floor;
        colIndex := (seedPos.y / cellSize).Floor;
      }
      ghost var first := FirstLanding(draws, cellSize, cols, |grid|, 0);
      assert k == first by {
        if k < first { assert false; }
        if first < k { assert false; }
      }
      SeedRangeBounds(seedPos, width, height);
      if rowIndex + colIndex * cols < 0 {
        // grid[index] with a negative index throws in the source
        return false;
      }
      StoreKeepsPlacement(grid, cellSize, cols, width, height, seedPos);
      grid := grid[rowIndex + colIndex * cols := seedPos];
      active := active + [seedPos];
      return true;
    }

    /** Whether no point stored in the nine linear indices around p's cell is
        closer to p than minDist, skipping indices outside the grid, empty cells
        and p itself. Reads the state and changes nothing. */
    method CheckAdjacentCells(newPoint: Point) returns (valid: bool)
      requires Valid()
      ensures valid <==> Clear(grid, cols, cellSize, minDist, newPoint, 1)
    {
      var pointColIndex := (newPoint.x / cellSize).Floor;
      var pointRowIndex := (newPoint.y / cellSize).Floor;
      for col := -1 to 2
        invariant forall dc, dr | -1 <= dc < col && -1 <= dr <= 1 ::
          !Rejects(grid, cols, cellSize, minDist, newPoint, dc, dr)
      {
        for row := -1 to 2
          invariant forall dc, dr | -1 <= dc < col && -1 <= dr <= 1 ::
            !Rejects(grid, cols, cellSize, minDist, newPoint, dc, dr)
          invariant forall dr | -1 <= dr < row ::
            !Rejects(grid, cols, cellSize, minDist, newPoint, col, dr)
        {
          var adjIndex := (pointColIndex + col) + ((pointRowIndex + row) * cols);
          assert adjIndex == AdjIndex(newPoint, cellSize, cols, col, row);
          if adjIndex > |grid| - 1 || adjIndex < 0 {
            continue;
          }
          var adjPoint := grid[adjIndex];
          if adjPoint == Sentinel {
            continue;
          }
          if adjPoint == newPoint {
            continue;
          }
          if SqDist(adjPoint, newPoint) < minDist * minDist {
            assert Rejects(grid, cols, cellSize, minDist, newPoint, col, row);
            return false;
          }
        }
      }
      return true;
    }

    /** Tries the first Attempts(timeOut) candidates around activePoint, the
        k-th along bearings[k]. The first one the grid admits is written into
        the cell it hashes to and appended to the active list; nothing changes
        when none is. */
    method GeneratePoint(activePoint: Point, bearings: seq<Bearing>) returns (ok: bool)
      requires Valid()
      requires Attempts(timeOut) <= |bearings|
      modifies this`grid, this`active
      ensures Valid()
      ensures var k := FirstAdmitted(Cfg(), old(grid), activePoint, bearings, 0);
        (ok <==> k < Attempts(timeOut)) &&
        (ok ==>
          var p := Candidate(activePoint, minDist, bearings[k]);
          grid == old(grid)[CellIndex(p, cellSize, cols) := p] && active == old(active) + [p]) &&
        (!ok ==> grid == old(grid) && active == old(active))
    {
      ghost var cfg := Cfg();
      var i := 0;
      while (i as real) < timeOut
        invariant 0 <= i <= Attempts(timeOut)
        invariant grid == old(grid) && active == old(active)
        invariant forall j | 0 <= j < i :: !Admits(cfg, grid, Candidate(activePoint, minDist, bearings[j]))
      {
        var newPoint := Point(activePoint.x + minDist * bearings[i].sin, activePoint.y + minDist * bearings[i].cos);
        assert newPoint == Candidate(activePoint, minDist, bearings[i]);
        if newPoint.x < 1.0 || newPoint.y < 1.0 || newPoint.x > width - 1.0 || newPoint.y > height - 1.0 {
          i := i + 1;
          continue;
        }
        var valid := CheckAdjacentCells(newPoint);
        if valid && (newPoint.x / cellSize).Floor + (newPoint.y / cellSize).Floor * cols < |grid| {
          var pointColIndex := (newPoint.x / cellSize).Floor;
          var pointRowIndex := (newPoint.y / cellSize).Floor;
          assert Admits(cfg, grid, newPoint);
          FirstAdmittedIsUnique(cfg, grid, activePoint, bearings, i);
          SeedRangeBounds(newPoint, width, height);
          StoreKeepsPlacement(grid, cellSize, cols, width, height, newPoint);
          grid := grid[pointColIndex + (pointRowIndex * cols) := newPoint];
          active := active + [newPoint];
          assert Cfg() == cfg;
          return true;
        }
        i := i + 1;
      }
      FirstAdmittedIsUnique(cfg, grid, activePoint, bearings, i);
      return false;
    }

    /** One round of the driver: spawn from the active point at randIndex, and
        retire that point exactly when none of its candidates is admitted. */
    method SpawnOrRetire(randIndex: nat, bearings: seq<Bearing>) returns (stillActive: bool)
      requires Valid()
      requires randIndex < |active|
      requires Attempts(timeOut) <= |bearings|
      requires forall k | 0 <= k < |bearings| :: IsUnit(bearings[k])
      modifies this`grid, this`active
      ensures Valid()
      ensures (grid, active) == Round(Cfg(), old(grid), old(active), randIndex, bearings)
      ensures stillActive <==> FirstAdmitted(Cfg(), old(grid), old(active)[randIndex], bearings, 0) < Attempts(timeOut)
      ensures !stillActive ==> forall k | 0 <= k < Attempts(timeOut) ::
        !Admits(Cfg(), old(grid), Candidate(old(active)[randIndex], minDist, bearings[k]))
      ensures stillActive ==>
        |active| == |old(active)| + 1 && active[..|old(active)|] == old(active) &&
        SqDist(active[|old(active)|], old(active)[randIndex]) == minDist * minDist
    {
      var activePoint := active[randIndex];
      stillActive := GeneratePoint(activePoint, bearings);
      if stillActive {
        ghost var k := FirstAdmitted(Cfg(), old(grid), activePoint, bearings, 0);
        assert active[|old(active)|] == Candidate(activePoint, minDist, bearings[k]);
      } else {
        active := active[..randIndex] + active[randIndex + 1..];
      }
    }

    /** Runs rounds until the active list is empty, the k-th round picking with
        picks[k] and spawning along bearings[k]. Returns the grid when the
        active list has run empty, and None when the draws ran out first. */
    method GeneratePoints(picks: seq<real>, bearings: seq<seq<Bearing>>) returns (samples: Option<seq<Point>>)
      requires Valid()
      requires forall k | 0 <= k < |picks| :: 0.0 <= picks[k] < 1.0
      requires |picks| <= |bearings|
      requires forall k | 0 <= k < |bearings| :: Attempts(timeOut) <= |bearings[k]|
      requires AllUnit(bearings)
      modifies this`grid, this`active
      ensures Valid() && |grid| == |old(grid)|
      ensures (grid, active) == Run(Cfg(), old(grid), old(active), picks, bearings, 0)
      ensures forall i | 0 <= i < |grid| && !IsSentinel(old(grid)[i]) :: !IsSentinel(grid[i])
      ensures samples.Some? <==> active == []
      ensures samples.Some? ==> samples.value == grid
      ensures width < 2.0 || height < 2.0 ==> grid == old(grid)
    {
      var k := 0;
      while |active| > 0 && k < |picks|
        invariant Valid() && |grid| == |old(grid)|
        invariant 0 <= k <= |picks|
        invariant Run(Cfg(), grid, active, picks, bearings, k) == Run(Cfg(), old(grid), old(active), picks, bearings, 0)
        decreases |picks| - k
      {
        var randIndex := PickIndex(picks[k], |active|);
        ghost var before, beforeActive := grid, active;
        assert forall j | 0 <= j < |bearings[k]| :: IsUnit(bearings[k][j]);
        var stillActive := SpawnOrRetire(randIndex, bearings[k]);
        assert Run(Cfg(), before, beforeActive, picks, bearings, k) == Run(Cfg(), grid, active, picks, bearings, k + 1);
        k := k + 1;
      }
      assert Run(Cfg(), grid, active, picks, bearings, k) == (grid, active);
      RunKeepsGrid(Cfg(), old(grid), old(active), picks, bearings, 0);
      if |active| == 0 {
        samples := Some(grid);
      } else {
        samples := None;
      }
    }

    /** The entry point: records the parameters, builds the grid, places the
        seed and runs the driver. The source's default timeOut is 30. */
    method Samples(width: real, height: real, minDist: real, c: real,
                   seedDraws: seq<Point>, picks: seq<real>, bearings: seq<seq<Bearing>>,
                   timeOut: real := 30.0)
      returns (outcome: Outcome)
      requires width > 0.0 && height > 0.0
      requires IsCellSize(c, minDist)
      requires forall k | 0 <= k < |seedDraws| :: InSeedRange(seedDraws[k], width, height)
      requires exists k | 0 <= k < |seedDraws| ::
        CellIndex(seedDraws[k], c, (width / c).Floor) < (width / c).Floor * (height / c).Floor
      requires forall k | 0 <= k < |picks| :: 0.0 <= picks[k] < 1.0
      requires |picks| <= |bearings|
      requires forall k | 0 <= k < |bearings| :: Attempts(timeOut) <= |bearings[k]|
      requires AllUnit(bearings)
      modifies this
      ensures Valid()
      ensures this.width == width && this.height == height && this.minDist == minDist && this.timeOut == timeOut
      ensures cellSize == c && cols == (width / c).Floor && rows == (height / c).Floor
      ensures var seed := seedDraws[FirstLanding(seedDraws, c, cols, |grid|, 0)];
        outcome.IndexOutOfRange? <==> CellIndex(seed, c, cols) < 0
      ensures width >= 1.0 && height >= 1.0 ==> !outcome.IndexOutOfRange?
      ensures outcome.DrawsExhausted? ==> active != []
      ensures var seed := seedDraws[FirstLanding(seedDraws, c, cols, |grid|, 0)];
        var i := CellIndex(seed, c, cols);
        0 <= i ==>
          var r := Run(Cfg(), seq(|grid|, _ => Sentinel)[i := seed], [seed], picks, bearings, 0);
          grid == r.0 && active == r.1 && (outcome.Sampled? <==> r.1 == [])
      ensures outcome.Sampled? ==> outcome.grid == grid && active == [] && |grid| == cols * rows
      ensures outcome.Sampled? ==>
        var i := CellIndex(seedDraws[FirstLanding(seedDraws, c, cols, |grid|, 0)], c, cols);
        0 <= i < |grid| && !IsSentinel(grid[i])
      ensures outcome.Sampled? && (width < 2.0 || height < 2.0) ==>
        var seed := seedDraws[FirstLanding(seedDraws, c, cols, |grid|, 0)];
        forall j | 0 <= j < |grid| :: grid[j] == if j == CellIndex(seed, c, cols) then seed else Sentinel
      ensures outcome.Sampled? && width >= 2.0 && height >= 2.0 ==> AllInterior(grid, width, height)
    {
      this.width := width;
      this.height := height;
      this.timeOut := timeOut;
      this.minDist := minDist;
      CreateGrid(c);
      ghost var cfg := Cfg();
      assert cfg == Config(c, cols, width, height, minDist, timeOut);
      ghost var empty := grid;
      var stored := GenerateSeed(seedDraws);
      if !stored {
        outcome := IndexOutOfRange;
      } else {
        ghost var seed := seedDraws[FirstLanding(seedDraws, c, cols, |grid|, 0)];
        ghost var i := CellIndex(seed, c, cols);
        assert empty == seq(|grid|, _ => Sentinel);
        assert grid == empty[i := seed] && !IsSentinel(seed);
        assert active == [seed];
        ghost var seeded := grid;
        var samples := GeneratePoints(picks, bearings);
        assert (grid, active) == Run(Cfg(), seeded, [seed], picks, bearings, 0);
        if samples.None? {
          outcome := DrawsExhausted;
        } else {
          if width >= 2.0 && height >= 2.0 {
            SeedRangeIsInterior(grid, width, height);
          }
          outcome := Sampled(samples.value);
        }
      }
      assert Cfg() == cfg;
    }
  }
}
