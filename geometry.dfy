/** Points of the sampling domain, distances between them, and the hashing of a
    point to the linear index of its grid cell. */
module Geometry {

  /** A point of the domain. The source's point also carries a third
      coordinate; the model assumes it is 0 for every point the sampler creates
      and leaves it out. */
  datatype Point = Point(x: real, y: real)

  /** The value an empty grid cell holds: the point (-1, -1, 0). */
  const Sentinel: Point := Point(-1.0, -1.0)

  predicate IsSentinel(p: Point) {
    p == Sentinel
  }

  /** Squared Euclidean distance. */
  function SqDist(a: Point, b: Point): real {
    (a.x - b.x) * (a.x - b.x) + (a.y - b.y) * (a.y - b.y)
  }

  /** The distance from a to b is below m; for m >= 0 this is
      `distance(a, b) < m` stated on squares. */
  predicate TooClose(a: Point, b: Point, m: real) {
    SqDist(a, b) < m * m
  }

  /** The inset rectangle [1, width-1] x [1, height-1] in which seeds are drawn
      and outside of which candidates are discarded. */
  predicate InInterior(p: Point, width: real, height: real) {
    1.0 <= p.x <= width - 1.0 && 1.0 <= p.y <= height - 1.0
  }

  /** v lies between a and b, in whichever order they come. */
  predicate Between(v: real, a: real, b: real) {
    a <= v <= b || b <= v <= a
  }

  /** Where a seed coordinate is drawn: Random.Range(1, width - 1) on floats
      swaps its bounds when width - 1 < 1, so for a side below 2 the draw lies
      in [side - 1, 1], outside the inset rectangle. */
  predicate InSeedRange(p: Point, width: real, height: real) {
    Between(p.x, 1.0, width - 1.0) && Between(p.y, 1.0, height - 1.0)
  }

  /** c is the cell size minDist / sqrt(2) of a positive minimum distance,
      stated on squares. */
  predicate IsCellSize(c: real, minDist: real) {
    c > 0.0 && minDist > 0.0 && 2.0 * c * c == minDist * minDist
  }

  /** floor(x / cellSize): the column a point hashes to. */
  function CellCol(p: Point, cellSize: real): int
    requires cellSize > 0.0
  {
    (p.x / cellSize).Floor
  }

  /** floor(y / cellSize): the row a point hashes to. */
  function CellRow(p: Point, cellSize: real): int
    requires cellSize > 0.0
  {
    (p.y / cellSize).Floor
  }

  /** The linear index col + row * cols of the cell a point hashes to; it is
      never negative for a point in the first quadrant. */
  function CellIndex(p: Point, cellSize: real, cols: int): (i: int)
    requires cellSize > 0.0
    ensures 0.0 <= p.x && 0.0 <= p.y && 0 <= cols ==> 0 <= i
  {
    if 0.0 <= p.x && 0.0 <= p.y && 0 <= cols then
      FloorNonNegative(p.x, cellSize);
      FloorNonNegative(p.y, cellSize);
      ProductNonNegative(CellRow(p, cellSize), cols);
      CellCol(p, cellSize) + CellRow(p, cellSize) * cols
    else
      CellCol(p, cellSize) + CellRow(p, cellSize) * cols
  }

  /** The seed range contains the inset rectangle, equals it when both sides
      are at least 2, and lies in the first quadrant when both sides are at
      least 1. */
  lemma SeedRangeBounds(p: Point, width: real, height: real)
    ensures InInterior(p, width, height) ==> InSeedRange(p, width, height)
    ensures width >= 2.0 && height >= 2.0 ==> (InSeedRange(p, width, height) <==> InInterior(p, width, height))
    ensures width >= 1.0 && height >= 1.0 && InSeedRange(p, width, height) ==> 0.0 <= p.x && 0.0 <= p.y
  {
  }

  lemma FloorNonNegative(a: real, c: real)
    requires 0.0 <= a && c > 0.0
    ensures 0 <= (a / c).Floor
  {
    assert a / c >= 0.0;
  }

  lemma ProductNonNegative(a: int, b: int)
    requires 0 <= a && 0 <= b
    ensures 0 <= a * b
  {
  }

  lemma MulNonNegative(a: real, b: real)
    requires 0.0 <= a && 0.0 <= b
    ensures 0.0 <= a * b
  {
  }

  lemma MulPositive(a: real, b: real)
    requires 0.0 < a && 0.0 < b
    ensures 0.0 < a * b
  {
  }

  /** If two reals differ by less than k cells, their cell numbers differ by at
      most k. */
  lemma FloorGap(a: real, b: real, c: real, k: int)
    requires c > 0.0 && 0 <= k
    requires -(k as real) * c < a - b < (k as real) * c
    ensures -k <= (a / c).Floor - (b / c).Floor <= k
  {
    var u, v := a / c, b / c;
    assert u * c == a && v * c == b;
    assert (u - v) * c == a - b;
    if u - v >= k as real {
      MulNonNegative(u - v - k as real, c);
      assert false;
    }
    if u - v <= -(k as real) {
      MulNonNegative(-(k as real) - (u - v), c);
      assert false;
    }
  }

  /** Two reals in the same cell differ by less than one cell. */
  lemma SameCellGap(a: real, b: real, c: real)
    requires c > 0.0 && (a / c).Floor == (b / c).Floor
    ensures -c < a - b < c
  {
    var u, v := a / c, b / c;
    assert u * c == a && v * c == b;
    assert -1.0 < u - v < 1.0;
    assert (u - v) * c == a - b;
    MulPositive(1.0 - (u - v), c);
    assert (1.0 - (u - v)) * c == c - (a - b);
    MulPositive(1.0 + (u - v), c);
    assert (1.0 + (u - v)) * c == c + (a - b);
  }

  /** The square of a real, as a term of its own: facts about squares are
      stated on Sq so that the solver does not have to relate products of a
      variable with itself. */
  function Sq(x: real): real {
    x * x
  }

  lemma SqPositive(a: real)
    requires 0.0 < a
    ensures 0.0 < Sq(a)
  {
    var h := a / 2.0;
    MulPositive(h, a);
    assert Sq(a) == 2.0 * (h * a);
  }

  lemma SqMonotone(a: real, b: real)
    requires 0.0 <= a <= b
    ensures Sq(a) <= Sq(b)
  {
    assert Sq(b) - Sq(a) == (b - a) * (b + a);
    MulNonNegative(b - a, b + a);
  }

  /** A square below m * m bounds its root by m. */
  lemma SquareBelow(d: real, m: real)
    requires m > 0.0 && d * d < m * m
    ensures -m < d < m
  {
    if d >= m {
      MulNonNegative(d - m, d + m);
      assert false;
    }
    if d <= -m {
      MulNonNegative(m - d, -m - d);
      assert false;
    }
  }

  /** The converse of SquareBelow. */
  lemma SquareAbove(d: real, m: real)
    requires -m < d < m
    ensures d * d < m * m
  {
    MulPositive(m - d, m + d);
  }
}
