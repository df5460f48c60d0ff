/** Grid geometry of the snake game: cell coordinates, the board and the four headings. */
module Geometry {

  const SCREEN_WIDTH := 320
  const SCREEN_HEIGHT := 240
  const TILE_SIZE := 5

  /** The board measured in cells: 64 columns by 48 rows. */
  const BOARD_WIDTH := SCREEN_WIDTH / TILE_SIZE
  const BOARD_HEIGHT := SCREEN_HEIGHT / TILE_SIZE

  /** A grid cell, or a heading when used as a delta. */
  datatype Point = Point(x: int, y: int)

  const LEFT := Point(-1, 0)
  const RIGHT := Point(1, 0)
  const UP := Point(0, -1)
  const DOWN := Point(0, 1)

  function Plus(p: Point, d: Point): Point
  {
    Point(p.x + d.x, p.y + d.y)
  }

  function Neg(d: Point): Point
  {
    Point(-d.x, -d.y)
  }

  predicate IsUnit(d: Point)
  {
    d == LEFT || d == RIGHT || d == UP || d == DOWN
  }

  /** Two cells that share a side. */
  predicate Adjacent(p: Point, q: Point)
  {
    IsUnit(Point(p.x - q.x, p.y - q.y))
  }

  predicate InBounds(p: Point)
  {
    0 <= p.x < BOARD_WIDTH && 0 <= p.y < BOARD_HEIGHT
  }

  predicate AllInBounds(cells: seq<Point>)
  {
    forall i :: 0 <= i < |cells| ==> InBounds(cells[i])
  }

  predicate Distinct(cells: seq<Point>)
  {
    forall i, j :: 0 <= i < j < |cells| ==> cells[i] != cells[j]
  }

  /** Row-major number of a cell; on the board it is a bijection onto [0, BOARD_WIDTH * BOARD_HEIGHT). */
  function CellIndex(p: Point): int
  {
    p.y * BOARD_WIDTH + p.x
  }

  lemma CellIndexInjective(p: Point, q: Point)
    requires InBounds(p) && InBounds(q)
    ensures 0 <= CellIndex(p) < BOARD_WIDTH * BOARD_HEIGHT
    ensures CellIndex(p) == CellIndex(q) ==> p == q
  {
    assert BOARD_WIDTH == 64 && BOARD_HEIGHT == 48;
    if p.y < q.y {
      assert p.y * 64 + 64 <= q.y * 64;
    } else if q.y < p.y {
      assert q.y * 64 + 64 <= p.y * 64;
    }
  }

  /** The integers 0 .. n-1. */
  function Range(n: nat): (r: set<int>)
    ensures |r| == n
    ensures forall k :: k in r <==> 0 <= k < n
  {
    if n == 0 then {} else Range(n - 1) + {n - 1}
  }

  /** The row-major numbers of a sequence of cells. */
  function Indices(cells: seq<Point>): set<int>
  {
    if cells == [] then {} else {CellIndex(cells[0])} + Indices(cells[1..])
  }

  lemma {:induction false} IndicesOfDistinctCells(cells: seq<Point>)
    requires AllInBounds(cells) && Distinct(cells)
    ensures |Indices(cells)| == |cells|
    ensures Indices(cells) <= Range(BOARD_WIDTH * BOARD_HEIGHT)
  {
    if cells != [] {
      var rest := cells[1..];
      assert AllInBounds(rest) && Distinct(rest) by {
        forall i | 0 <= i < |rest| ensures InBounds(rest[i]) { assert rest[i] == cells[i + 1]; }
        forall i, j | 0 <= i < j < |rest| ensures rest[i] != rest[j] { assert rest[i] == cells[i + 1] && rest[j] == cells[j + 1]; }
      }
      IndicesOfDistinctCells(rest);
      CellIndexInjective(cells[0], cells[0]);
      if CellIndex(cells[0]) in Indices(rest) {
        var j := IndexWitness(rest, CellIndex(cells[0]));
        assert rest[j] == cells[j + 1];
        CellIndexInjective(cells[0], rest[j]);
        assert false;
      }
    }
  }

  /** A position in `cells` whose row-major number is `k`. */
  lemma {:induction false} IndexWitness(cells: seq<Point>, k: int) returns (j: nat)
    requires k in Indices(cells)
    ensures j < |cells| && CellIndex(cells[j]) == k
  {
    if CellIndex(cells[0]) == k {
      j := 0;
    } else {
      j := IndexWitness(cells[1..], k);
      j := j + 1;
    }
  }

  /** Pigeonhole: pairwise distinct cells on the board are at most as many as the board has cells. */
  lemma DistinctCellsFitBoard(cells: seq<Point>)
    requires AllInBounds(cells) && Distinct(cells)
    ensures |cells| <= BOARD_WIDTH * BOARD_HEIGHT
  {
    IndicesOfDistinctCells(cells);
    SubsetSize(Indices(cells), Range(BOARD_WIDTH * BOARD_HEIGHT));
  }

  lemma SubsetSize(a: set<int>, b: set<int>)
    requires a <= b
    ensures |a| <= |b|
  {
    assert b == a + (b - a);
    assert a * (b - a) == {};
  }
}
