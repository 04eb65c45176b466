/** Row-major index arithmetic shared by the tile-data decoder and the window
    model (helpers.js, `windowHelpers`).  The source computes the row with
    `Math.floor` and the column with JavaScript's `%`, which truncates toward
    zero; both are written out here so that negative indices behave as they do
    in the source. */
module Helpers {

  datatype Coords = Coords(row: int, col: int)

  /** JavaScript's `a % b` for a positive divisor: the sign follows the dividend. */
  function JsRem(a: int, b: int): (r: int)
    requires b > 0
    ensures a >= 0 ==> 0 <= r < b
    ensures a < 0 ==> -b < r <= 0
  {
    if a >= 0 then a % b else -((-a) % b)
  }

  /** `JsRem(a, b)` differs from `a` by a multiple of `b`; with the range
      clauses of `JsRem` this fixes its value on both sides of zero. */
  lemma JsRemCongruent(a: int, b: int)
    requires b > 0
    ensures (a - JsRem(a, b)) % b == 0
  {
    if a < 0 {
      var m := -a;
      var q := m / b;
      assert m == q * b + m % b;
      assert a - JsRem(a, b) == (-q) * b + 0;
      DivModUnique(a - JsRem(a, b), b, -q, 0);
    } else {
      DivModUnique(a - JsRem(a, b), b, a / b, 0);
    }
  }

  /** `indexToCoords(index, colsize)`: row by floor division, column by `%`. */
  function IndexToCoords(index: int, colsize: int): (p: Coords)
    requires colsize > 0
    ensures index >= 0 ==> 0 <= p.row && 0 <= p.col < colsize
    ensures index >= 0 ==> p.row == index / colsize && p.col == index % colsize
  {
    DivNonNegative(index, colsize);
    Coords(index / colsize, JsRem(index, colsize))
  }

  lemma DivNonNegative(a: int, b: int)
    requires b > 0
    ensures a >= 0 ==> a / b >= 0
  {
  }

  /** `coordsToIndex(row, col, colsize)`: the row-major flat index.  With the
      column in range, the row is the index's floor quotient and the column its
      non-negative remainder, on every row (negative ones included). */
  function CoordsToIndex(row: int, col: int, colsize: int): (i: int)
    ensures colsize > 0 && 0 <= col < colsize ==> i / colsize == row && i % colsize == col
  {
    var i := row * colsize + col;
    if colsize > 0 && 0 <= col < colsize then DivModUnique(i, colsize, row, col); i else i
  }

  /** Every non-negative index is recovered from its coordinates. */
  lemma {:induction false} CoordsOfIndexRoundTrip(index: int, colsize: int)
    requires colsize > 0 && index >= 0
    ensures CoordsToIndex(IndexToCoords(index, colsize).row, IndexToCoords(index, colsize).col, colsize) == index
  {
    var p := IndexToCoords(index, colsize);
    assert p.col == index % colsize;
    assert p.row * colsize + p.col == index;
  }

  /** In-range coordinates on a non-negative row are recovered from their index. */
  lemma {:induction false} IndexOfCoordsRoundTrip(row: int, col: int, colsize: int)
    requires colsize > 0 && row >= 0 && 0 <= col < colsize
    ensures IndexToCoords(CoordsToIndex(row, col, colsize), colsize) == Coords(row, col)
  {
    var i := row * colsize + col;
    assert 0 <= row * colsize by { MulNonNegative(row, colsize); }
    DivModUnique(i, colsize, row, col);
  }

  /** The round trip fails above the first row: JavaScript's `%` keeps the
      dividend's sign, so index -2 of a 3-column grid is column -2, not 1. */
  lemma NegativeRowNoRoundTrip()
    ensures CoordsToIndex(-1, 1, 3) == -2
    ensures IndexToCoords(-2, 3) == Coords(-1, -2)
  {
  }

  /** Row-major order: a later cell (in row-major order, columns in range)
      has a strictly larger flat index, and conversely. */
  lemma {:induction false} CoordsToIndexMonotone(r1: int, c1: int, r2: int, c2: int, colsize: int)
    requires colsize > 0 && 0 <= c1 < colsize && 0 <= c2 < colsize
    ensures CoordsToIndex(r1, c1, colsize) < CoordsToIndex(r2, c2, colsize)
            <==> (r1 < r2 || (r1 == r2 && c1 < c2))
  {
    if r1 < r2 {
      MulMonotone(r1 + 1, r2, colsize);
      assert (r1 + 1) * colsize == r1 * colsize + colsize;
    } else if r1 > r2 {
      MulMonotone(r2 + 1, r1, colsize);
      assert (r2 + 1) * colsize == r2 * colsize + colsize;
    }
  }

  /** Distinct in-range coordinates have distinct flat indices. */
  lemma {:induction false} CoordsToIndexInjective(r1: int, c1: int, r2: int, c2: int, colsize: int)
    requires colsize > 0 && 0 <= c1 < colsize && 0 <= c2 < colsize
    requires CoordsToIndex(r1, c1, colsize) == CoordsToIndex(r2, c2, colsize)
    ensures r1 == r2 && c1 == c2
  {
    CoordsToIndexMonotone(r1, c1, r2, c2, colsize);
    CoordsToIndexMonotone(r2, c2, r1, c1, colsize);
  }

  /** An index below `rows * colsize` lies on one of the first `rows` rows. */
  lemma {:induction false} IndexInGrid(index: int, rows: int, colsize: int)
    requires colsize > 0 && 0 <= index < rows * colsize
    ensures 0 <= IndexToCoords(index, colsize).row < rows
  {
    var p := IndexToCoords(index, colsize);
    CoordsOfIndexRoundTrip(index, colsize);
    if p.row >= rows {
      MulMonotone(rows, p.row, colsize);
      assert false;
    }
  }

  /** Coordinates inside a `rows` x `colsize` grid have an index inside it. */
  lemma {:induction false} CoordsInGrid(row: int, col: int, rows: int, colsize: int)
    requires colsize > 0 && 0 <= row < rows && 0 <= col < colsize
    ensures 0 <= CoordsToIndex(row, col, colsize) < rows * colsize
  {
    MulNonNegative(row, colsize);
    MulMonotone(row + 1, rows, colsize);
    assert (row + 1) * colsize == row * colsize + colsize;
  }

  lemma MulNonNegative(a: int, b: int)
    requires a >= 0 && b >= 0
    ensures a * b >= 0
  {
  }

  lemma MulMonotone(a: int, b: int, c: int)
    requires a <= b && c >= 0
    ensures a * c <= b * c
  {
    assert b * c - a * c == (b - a) * c;
    MulNonNegative(b - a, c);
  }

  lemma DivModUnique(i: int, n: int, q: int, r: int)
    requires n > 0 && 0 <= r < n && i == q * n + r
    ensures i / n == q && i % n == r
  {
    var q', r' := i / n, i % n;
    assert i == q' * n + r';
    if q' < q {
      MulMonotone(q' + 1, q, n);
    } else if q' > q {
      MulMonotone(q + 1, q', n);
    }
  }
}
