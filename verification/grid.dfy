/** Geometry of the A* demo grid: bounds, Manhattan distance, the integer
    key of a cell, the four move directions and rectangular walls.

    The program fixes the side length at 30; here it is the parameter `n`.
    A field is a square matrix of characters; the search only ever asks
    whether a cell holds the wall character. */
module Grid {

  /** A grid coordinate, row first. */
  datatype Cell = Cell(r: int, c: int)

  /** The character that marks a blocked cell. */
  const WALL: char := '@'

  /** Row and column offsets of the four moves, in the order the search
      tries them: right, down, left, up. */
  const DR: seq<int> := [0, 1, 0, -1]
  const DC: seq<int> := [1, 0, -1, 0]

  function Abs(x: int): nat
  {
    if x < 0 then -x else x
  }

  /** Bounds check of a coordinate pair. */
  predicate InBounds(n: int, r: int, c: int)
  {
    0 <= r < n && 0 <= c < n
  }

  /** Manhattan distance between two cells; the search uses it as its
      heuristic and as its goal test. */
  function Dist(r1: int, c1: int, r2: int, c2: int): (d: int)
    ensures d >= 0
    ensures d == 0 <==> r1 == r2 && c1 == c2
  {
    Abs(r1 - r2) + Abs(c1 - c2)
  }

  /** The integer key of a cell: row-major position in an n-by-n grid. */
  function Hash(n: int, r: int, c: int): int
  {
    r * n + c
  }

  /** The cell whose key is `k`: the inverse of `Hash` on in-bounds cells. */
  function Unhash(n: int, k: int): Cell
    requires n > 0
  {
    Cell(k / n, k % n)
  }

  /** The cells of an n-by-n grid, enumerated through their keys. */
  function AllCells(n: int): set<Cell>
    requires n > 0
  {
    set k | 0 <= k < n * n :: Unhash(n, k)
  }

  /** The cell reached from (r, c) by move `i`. */
  function Move(r: int, c: int, i: int): Cell
    requires 0 <= i < 4
  {
    Cell(r + DR[i], c + DC[i])
  }

  /** True when the field has n rows of n characters each. */
  predicate IsSquare(n: int, field: seq<seq<char>>)
  {
    |field| == n && forall i :: 0 <= i < n ==> |field[i]| == n
  }

  /** True when (r, c) lies inside the field and holds a wall. */
  predicate Blocked(field: seq<seq<char>>, r: int, c: int)
  {
    0 <= r < |field| && 0 <= c < |field[r]| && field[r][c] == WALL
  }

  /** True when (r, c) lies in the rectangle with top-left corner
      (row, col) and the given height and width. */
  predicate InRect(r: int, c: int, row: int, col: int, height: int, width: int)
  {
    row <= r < row + height && col <= c < col + width
  }

  // ---------------------------------------------------------------------
  // Properties of the helpers

  /** `isValid` accepts exactly the cells that the keys 0 .. n*n-1 name. */
  lemma InBoundsIffKeyed(n: int, r: int, c: int)
    requires n > 0
    ensures InBounds(n, r, c) <==> Cell(r, c) in AllCells(n)
  {
    if InBounds(n, r, c) {
      HashRange(n, r, c);
      UnhashHash(n, r, c);
      assert Unhash(n, Hash(n, r, c)) == Cell(r, c);
    }
    if Cell(r, c) in AllCells(n) {
      var k :| 0 <= k < n * n && Unhash(n, k) == Cell(r, c);
      DivBound(n, k);
    }
  }

  lemma DivBound(n: int, k: int)
    requires n > 0 && 0 <= k < n * n
    ensures 0 <= k / n < n && 0 <= k % n < n
  {
  }

  lemma MulMono(n: int, a: int, b: int)
    requires n > 0 && a >= b
    ensures a * n >= b * n
  {
  }

  /** The key of an in-bounds cell lies in [0, n*n). */
  lemma HashRange(n: int, r: int, c: int)
    requires InBounds(n, r, c)
    ensures 0 <= Hash(n, r, c) < n * n
  {
    MulMono(n, n - 1, r);
    assert r * n <= (n - 1) * n;
  }

  /** Decoding the key of an in-bounds cell gives the cell back. */
  lemma UnhashHash(n: int, r: int, c: int)
    requires InBounds(n, r, c)
    ensures Unhash(n, Hash(n, r, c)) == Cell(r, c)
  {
    var k := Hash(n, r, c);
    HashRange(n, r, c);
    var q, m := k / n, k % n;
    assert k == q * n + m;
    assert (r - q) * n == m - c;
    if r - q >= 1 {
      MulMono(n, r - q, 1);
    } else if r - q <= -1 {
      MulMono(n, -1, r - q);
    }
  }

  /** Distinct in-bounds cells have distinct keys. */
  lemma HashInjective(n: int, r1: int, c1: int, r2: int, c2: int)
    requires InBounds(n, r1, c1) && InBounds(n, r2, c2)
    ensures Hash(n, r1, c1) == Hash(n, r2, c2) <==> r1 == r2 && c1 == c2
  {
    UnhashHash(n, r1, c1);
    UnhashHash(n, r2, c2);
  }

  /** Every move of the table changes the distance to any fixed cell by
      exactly one, in one direction or the other; hence the heuristic
      is consistent: it never drops by more than the cost of a move. */
  lemma MoveChangesDistByOne(r: int, c: int, i: int, gr: int, gc: int)
    requires 0 <= i < 4
    ensures var m := Move(r, c, i);
      Abs(Dist(m.r, m.c, gr, gc) - Dist(r, c, gr, gc)) == 1
  {
  }

  /** The moves of the table are exactly the steps of Manhattan length one. */
  lemma MoveIffDistOne(r: int, c: int, r': int, c': int)
    ensures Dist(r, c, r', c') == 1 <==> exists i :: 0 <= i < 4 && Move(r, c, i) == Cell(r', c')
  {
    if Dist(r, c, r', c') == 1 {
      if r' == r + 1 {
        assert Move(r, c, 1) == Cell(r', c');
      } else if r' == r - 1 {
        assert Move(r, c, 3) == Cell(r', c');
      } else if c' == c + 1 {
        assert Move(r, c, 0) == Cell(r', c');
      } else {
        assert Move(r, c, 2) == Cell(r', c');
      }
    }
  }

  /** The distance does not depend on the order of its two cells. */
  lemma DistSymmetric(r1: int, c1: int, r2: int, c2: int)
    ensures Dist(r1, c1, r2, c2) == Dist(r2, c2, r1, c1)
  {
  }

  /** The triangle inequality of the Manhattan distance. */
  lemma DistTriangle(r1: int, c1: int, r2: int, c2: int, r3: int, c3: int)
    ensures Dist(r1, c1, r3, c3) <= Dist(r1, c1, r2, c2) + Dist(r2, c2, r3, c3)
  {
  }

  // ---------------------------------------------------------------------
  // Wall placement

  /** Fills the rectangle with top-left corner (row, col) and the given
      height and width with walls, row by row. The random wall generator
      always passes a rectangle inside the field. */
  method PlaceWall(n: int, field: seq<seq<char>>, row: int, col: int, height: int, width: int)
    returns (f: seq<seq<char>>)
    requires IsSquare(n, field)
    requires height <= 0 || width <= 0 || (0 <= row && row + height <= n && 0 <= col && col + width <= n)
    ensures IsSquare(n, f)
    ensures forall r, c :: InBounds(n, r, c) ==>
              f[r][c] == if InRect(r, c, row, col, height, width) then WALL else field[r][c]
  {
    f := field;
    var i := row;
    while i < row + height
      invariant IsSquare(n, f)
      invariant height > 0 ==> row <= i <= row + height
      invariant height <= 0 ==> i == row
      invariant forall r, c :: InBounds(n, r, c) ==>
                  f[r][c] == if InRect(r, c, row, col, i - row, width) then WALL else field[r][c]
    {
      var j := col;
      while j < col + width
        invariant IsSquare(n, f)
        invariant col <= j && (width > 0 ==> j <= col + width) && (width <= 0 ==> j == col)
        invariant forall r, c :: InBounds(n, r, c) ==>
                    f[r][c] == if InRect(r, c, row, col, i - row, width) || (r == i && col <= c < j)
                               then WALL else field[r][c]
      {
        f := f[i := f[i][j := WALL]];
        j := j + 1;
      }
      i := i + 1;
    }
  }
}
